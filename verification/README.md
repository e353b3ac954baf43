# sysusers_convert, modelled in Dafny

`sysusers_convert.py` converts an RPM spec file that creates its system users
and groups by calling `groupadd` and `useradd` in the `%pre` scriptlet into
one that ships a sysusers.d manifest. This project models that conversion of
one spec file as pure functions over the file's lines:

1. **Logical lines** (`lines.dfy`, module `Lines`): backslash continuations
   joined into logical lines, with the span of physical lines each came from.
2. **Argument grammars** (`grammar.dfy`, modules `Grammar`, `GrammarErrors`
   and `GrammarRoundTrip`): the fixed option tables of `groupadd`, `useradd`
   and section headers, read by a token parser in place of `argparse`, the
   cut-off of a command line at the first pipe or redirection, the ways a
   call fails to parse, and the round trip from records to arguments.
3. **Sections** (`sections.dfy`, module `Sections`): locating `%name`, optionally
   for a sub-package, and the extent of its body.
4. **Extraction** (`extract.dfy`, module `Extract`): the walk over the `%pre`
   body that records the compat marker and every groupadd/useradd call.
5. **Deletion** (`deletion.dfy`, module `Deletion`): the range of lines
   removed from `%pre`.
6. **Manifest** (`manifest.dfy`, module `Manifest`): the checks on the recorded
   accounts and the `g`/`u`/`m` lines written into `%prep`.
7. **Dependency stripping** (`requires.dfy`, module `Requires`): removing the
   shadow-utils dependencies and the `%sysusers_requires_compat` line.
8. **The pipeline** (`convert.dfy`, module `Convert`): all stages in the order
   the script runs them, with the `%install` and `%files` injections.

Shared pieces: `results.dfy` (module `Results`: `Option`, the `Result` type
whose `Err` cases are the ways the script stops, Python truthiness and the
`x or '-'` idiom), `text.dfy` (module `Text`: prefixes, regular-expression
character classes, `str.split()`, `str.split(sep)` and `sep.join`) and
`env.dfy` (module `Environment`: the package name and the three collaborators
the script calls but does not implement, passed in as functions).

Every way the script stops on a spec file (a failed `assert`, an uncaught
exception, an `argparse` exit, an index error) is an `Err` value of the model.

## Model

| member | source | states |
|---|---|---|
| Results.OrDash | sysusers_convert.py:217 | `x or '-'` yields `-` exactly when the value is missing, empty or itself `-`, and the value otherwise |
| Text.SplitJoin | sysusers_convert.py:229 | splitting a comma-joined list of comma-free names gives the names back; with `JoinSplit`, split and join are inverse |
| Text.JoinSplit | sysusers_convert.py:229 | joining the pieces of a split with the separator rebuilds the string |
| Text.WordsJoin | sysusers_convert.py:247-252 | whitespace-splitting a space-joined list of words gives back exactly those words |
| Lines.RunEnd | sysusers_convert.py:68-70 | the end of a continuation run is the first line at or after the start without a trailing backslash; none exists exactly when every remaining line ends in one |
| Lines.LogicalLine | sysusers_convert.py:65-72 | a line is swallowed exactly when the line before it (the last line, for line 0) ends in a backslash; otherwise its logical line spans through the first line without a backslash, and running off the end of the file is an index error |
| Lines.Joined | sysusers_convert.py:71 | a run joined into one text ends with the last line of the run, and a run of one line is that line |
| Lines.JoinedStart | sysusers_convert.py:71 | a joined run of several lines starts with the first line less its backslash |
| Lines.JoinedWrapped | sysusers_convert.py:71 | joining lines that are pieces with backslashes appended gives back the concatenated pieces |
| Lines.LogicalLineOfWrapped | sysusers_convert.py:65-72 | a command wrapped over several physical lines is read back as its concatenated pieces, spanning exactly those lines |
| Lines.Delete | sysusers_convert.py:193 | deleting a slice keeps the lines before it in place and shifts the lines after it up by its length |
| Lines.Insert | sysusers_convert.py:235-241 | a block inserted at a position sits there, with the earlier lines unchanged and the later ones shifted down |
| Lines.DeleteInsert | sysusers_convert.py:235-241 | deleting an inserted block restores the file |
| Lines.InsertSubsequence | sysusers_convert.py:235-241 | an insertion keeps every original line, in order |
| Lines.SubsequenceTrans | sysusers_convert.py:235-275 | keeping lines in order through two rewrites keeps them in order through both |
| Grammar.Lookup | sysusers_convert.py:24-46 | the table entry found is one whose short or long spelling is the token; none is found only when no entry names it |
| Grammar.UnknownFlagRejected | sysusers_convert.py:24-41 | a flag-like token that no table entry names makes the whole parse fail |
| Grammar.ParseAppend | sysusers_convert.py:24-41 | parsing proceeds token group by token group: a parse of `a + b` is the parse of `b` continued from that of `a` |
| Grammar.LastValueWins | sysusers_convert.py:31-38 | a value flag given twice keeps the second value |
| Grammar.PipeIndex | sysusers_convert.py:77-82 | the cut is at the first token holding a pipe or `>`, or after the last token when none does |
| Grammar.CommandArguments | sysusers_convert.py:75-84 | the arguments handed to the option parser are the tokens after the command name and before the first pipe or redirection, and none of them holds one |
| GrammarErrors.ParsePlain | sysusers_convert.py:24-41 | tokens that are not flags all become positionals, in order, and the parse succeeds |
| GrammarErrors.GroupaddPositionals | sysusers_convert.py:24-28 | a flag-free `groupadd` call parses exactly when it has one positional, which is the group's name, with no gid and both switches off |
| GrammarErrors.UseraddPositionals | sysusers_convert.py:30-41 | a flag-free `useradd` call parses exactly when it has one positional, which is the user's name |
| GrammarErrors.ValueFlagWithoutValue | sysusers_convert.py:24-46 | a flag that takes a value, given last or followed by another flag, makes the parse fail whatever was parsed before it |
| GrammarRoundTrip.GroupaddRoundTrip | sysusers_convert.py:24-28 | writing a group record as `groupadd` arguments and parsing them gives the record back |
| GrammarRoundTrip.UseraddRoundTrip | sysusers_convert.py:30-41 | writing a user record as `useradd` arguments and parsing them gives the record back, every value and switch included |
| Sections.InstallDoesNotClose | sysusers_convert.py:86 | an `%install` header is not in the closing vocabulary, so it never ends a section |
| Sections.FindStart | sysusers_convert.py:95-100 | the header found is a first accepted one: no earlier header of that name is accepted and none has unparseable arguments; when nothing is found, no header is accepted and none is unparseable; without any header of that name nothing is found |
| Sections.FindStartAt | sysusers_convert.py:95-100 | conversely, an accepted header preceded by no accepted and no unparseable header of that name is the one found |
| Sections.FindStartBad | sysusers_convert.py:95-97 | a header of that name with unparseable arguments, preceded by no accepted one, stops the search with the parser's error |
| Sections.FirstClose | sysusers_convert.py:101-103 | the close is the first later line opening a section of the closing vocabulary |
| Sections.TrimBlank | sysusers_convert.py:108-109 | trailing empty lines are removed, never past the header, and the new last line is not empty |
| Sections.Body | sysusers_convert.py:101-111 | the body stops one line before the close, less trailing empty lines; it exists exactly when a close follows at line 2 or later, and otherwise the section is missing |
| Sections.Locate | sysusers_convert.py:93-111 | a located section starts at the first accepted header, with no unparseable header before it, carries that header's arguments, and ends as `Body` delimits it; a file with no accepted header fails |
| Sections.LocateFinds | sysusers_convert.py:93-111 | conversely, the first accepted header, preceded by no unparseable one and followed by a close at line 2 or later, is where the located section starts |
| Sections.LocateRefuses | sysusers_convert.py:95-97 | a header of that name with unparseable arguments, before any accepted one, makes locating fail with the parser's error |
| Extract.CompatArgumentSpelled | sysusers_convert.py:151 | a marker is found exactly when the line opens with one of the four spellings `%sysusers_create_compat`, `%{sysusers_create_compat`, `%sysusers_create_compat}`, `%{sysusers_create_compat}` followed by whitespace, and its argument is the rest of the line after that whitespace |
| Extract.CompatArgumentOf | sysusers_convert.py:151-154 | a marker line written with a file name gives that file name back |
| Extract.FindCommand | sysusers_convert.py:157 | the command found is the leftmost standalone occurrence of its name followed by more text |
| Extract.CommandText | sysusers_convert.py:157-164 | the captured command text is a suffix of the line starting with the command name, and it starts at the leftmost standalone occurrence: no earlier position holds one; there is none exactly when no standalone occurrence exists |
| Extract.Step | sysusers_convert.py:151-169 | one logical line fails exactly when it is a second marker after one naming a file or a call on it fails to parse; otherwise the marker becomes the argument with the line's span, and a group (user) is appended with the line's span exactly when the command occurs, its record being the parse of the captured text |
| Extract.GroupaddLineRecorded | sysusers_convert.py:157-162 | a line that is a `groupadd` call written from a group record appends exactly that record and the line's span, and nothing else |
| Extract.UseraddLineRecorded | sysusers_convert.py:164-169 | a line that is a `useradd` call written from a user record appends exactly that record and the line's span, and nothing else |
| Extract.RecordAll | sysusers_convert.py:143-169 | recording a logical line that starts after all earlier spans keeps the recorded spans in file order, inside the body and non-overlapping |
| Extract.VisitClean | sysusers_convert.py:147-169 | the visit to one physical line fails exactly when the line does not read cleanly: its logical line runs off the end of the file, or it is a second marker after one naming a file, or a call on it fails to parse |
| Extract.VisitGroups | sysusers_convert.py:157-162 | a successful visit appends what the line adds to the groups: the parse of its `groupadd` call, or nothing |
| Extract.VisitUsers | sysusers_convert.py:164-169 | a successful visit appends what the line adds to the users: the parse of its `useradd` call, or nothing |
| Extract.VisitCompat | sysusers_convert.py:151-154 | after a successful visit the marker is the line's marker argument with its span when the line is a marker, and the earlier one otherwise |
| Extract.VisitSpans | sysusers_convert.py:147-169 | a successful visit appends the line's span to the group (user) spans exactly when the line holds a `groupadd` (`useradd`) call |
| Extract.ExtractFrom | sysusers_convert.py:143-169 | the walk yields well-formed records whose group spans and user spans are exactly the spans, in file order, of the logical lines in the body that hold a `groupadd` (respectively `useradd`) call |
| Extract.ExtractFromClean | sysusers_convert.py:143-169 | the walk succeeds exactly when every logical line of the rest of the body reads cleanly, each with the marker the lines before it left |
| Extract.ExtractFromGroups | sysusers_convert.py:157-162 | a successful walk appends, in file order, the parses of the `groupadd` calls of the rest of the body |
| Extract.ExtractFromUsers | sysusers_convert.py:164-169 | a successful walk appends, in file order, the parses of the `useradd` calls of the rest of the body |
| Extract.ExtractFromCompat | sysusers_convert.py:151-154 | a successful walk leaves in force the last marker line of the rest of the body, or the marker it started with when there is none |
| Extract.ExtractScriptlet | sysusers_convert.py:143-169 | the walk over the whole `%pre` body succeeds exactly when every logical line reads cleanly; the group and user spans are then those of every call in the section and nothing else, the records are the parses of those calls in file order, and the marker is the last marker line, or none |
| Extract.GroupsAlign | sysusers_convert.py:157-162 | the groups read from the body are what the start lines of its `groupadd` spans add, in order |
| Extract.UsersAlign | sysusers_convert.py:164-169 | the users read from the body are what the start lines of its `useradd` spans add, in order |
| Extract.GroupsCount | sysusers_convert.py:157-162 | when the body reads cleanly there are as many groups as `groupadd` spans |
| Extract.UsersCount | sysusers_convert.py:164-169 | when the body reads cleanly there are as many users as `useradd` spans |
| Extract.GroupsPaired | sysusers_convert.py:157-162 | when the body reads cleanly, the group at each place is the one the line at the span at the same place adds (so `groups` and `groups_where` stay parallel) |
| Extract.UsersPaired | sysusers_convert.py:164-169 | when the body reads cleanly, the user at each place is the one the line at the span at the same place adds (so `users` and `users_where` stay parallel) |
| Extract.GroupReadParses | sysusers_convert.py:157-160 | a line that adds a group holds a standalone `groupadd` whose arguments parse as that group |
| Extract.UserReadParses | sysusers_convert.py:164-167 | a line that adds a user holds a standalone `useradd` whose arguments parse as that user |
| Deletion.LeastStart | sysusers_convert.py:174-177 | the start is the least start of the recorded spans and is one of them |
| Deletion.GreatestStop | sysusers_convert.py:178-181 | the stop is the greatest stop of the recorded spans and the seed 0, and is one of them |
| Deletion.SpansInside | sysusers_convert.py:174-181 | the hull of a non-empty well-formed record lies inside the section body |
| Deletion.HullCovers | sysusers_convert.py:174-181 | the least start and greatest stop enclose every recorded span |
| Deletion.Retreat | sysusers_convert.py:183-184 | the start moves up over comment and blank lines only, and stops at the floor or below a line that is neither |
| Deletion.RetreatToFloor | sysusers_convert.py:183-190 | the retreat reaches the line after the header exactly when every line in between is a comment or blank |
| Deletion.SkipExits | sysusers_convert.py:187-188 | the stop moves down over `exit 0` and blank lines to the first other line; it fails exactly when no other line follows |
| Deletion.Widen | sysusers_convert.py:183-192 | the deleted range covers the calls, takes in above them only comment and blank lines (and the header) and stops just below a line that is neither, takes a `passwd -l` line right below them, then `exit 0` and blank lines and ends before a line that is neither; it fails exactly when every line below the calls is such a line, so that the scan runs off the end of the file, and takes the header exactly when the section holds nothing else |
| Deletion.Range | sysusers_convert.py:171-193 | a scriptlet with no group, user or marker file is refused, and otherwise the deleted range covers every recorded span |
| Manifest.ResolveName | sysusers_convert.py:196-198 | a name without `%` is kept; a macro name is replaced by its expansion, and fails exactly when the expansion fails |
| Manifest.CheckGroup | sysusers_convert.py:195-200 | a group passes exactly when its name resolves and it is a system group or has a non-empty gid; only its name changes |
| Manifest.CheckUser | sysusers_convert.py:201-207 | a user passes exactly when its name resolves, it is a system user or has a uid, and its primary group is unset or names a recorded group by name or gid |
| Manifest.Validate | sysusers_convert.py:195-207 | checked accounts keep their count and order, and every field but the name, which is the resolved name; all have ids and users' primary groups are known; an account without an id fails, and so does an unknown primary group when no group name is a macro; without macro group names and with every check passing, validation succeeds |
| Manifest.ValidateKeepsPlainNames | sysusers_convert.py:195-207 | without macro names, accounts that pass the checks are passed through unchanged |
| Manifest.KeptFrom | sysusers_convert.py:214-217 | the groups that get a line are exactly those no user implies (same name, or a non-empty gid equal to the user's uid), in recorded order |
| Manifest.GroupLinesKept | sysusers_convert.py:213-217 | the `g` lines are the lines of exactly those kept groups, one each, in order |
| Manifest.GroupLineFields | sysusers_convert.py:217 | a `g` line splits back into `g`, the name and the gid or `-` |
| Manifest.CommentField | sysusers_convert.py:223 | a missing or empty comment is written as `-`, any other as its quoted form |
| Manifest.ShellField | sysusers_convert.py:220-226 | the shell column is `-` exactly for the six nologin spellings, the empty shell and `-`, and the shell itself otherwise |
| Manifest.UserLineFields | sysusers_convert.py:226 | a `u` line splits back into its six fields when none holds a space |
| Manifest.MemberLines | sysusers_convert.py:229-233 | there is an `m` line for each supplementary group other than the user's own name, and no other |
| Manifest.MemberLinesAppend | sysusers_convert.py:229-233 | the `m` lines follow the order of the `-G` list |
| Manifest.UserBlock | sysusers_convert.py:219-233 | a user yields its `u` line followed by its `m` lines, and a user without a shell fails |
| Manifest.Generate | sysusers_convert.py:213-233 | the manifest is the `g` lines then each user's block in order, and fails exactly when some user has no shell |
| Manifest.ManifestShape | sysusers_convert.py:213-233 | the manifest holds one `g` line per kept group, all ahead of the rest, and one `u` line per user |
| Manifest.ManifestKinds | sysusers_convert.py:213-233 | every manifest line is a `g`, `u` or `m` line |
| Requires.Lead | sysusers_convert.py:246 | the tag with its whitespace and the listed dependencies make up the whole line |
| Requires.Others | sysusers_convert.py:248-249 | the kept dependencies are the tokens that are not tool spellings; nothing is dropped exactly when no token is one, and a single token is dropped exactly when it is one |
| Requires.OthersAppend | sysusers_convert.py:248-249 | filtering acts token by token: the kept tokens of a list are those of its front followed by those of its back, so order and repetitions are kept |
| Requires.StripLine | sysusers_convert.py:245-258 | a dependency line naming a tool goes exactly when every token is a tool spelling, is rewritten to the tag and the kept tokens whenever some token is one, and stays byte-identical otherwise; any other line goes exactly when it is the compat requires macro |
| Requires.RewrittenListsKept | sysusers_convert.py:246-252 | a rewritten dependency line keeps its tag and reads back as exactly the kept tokens |
| Requires.StripAppend | sysusers_convert.py:244-261 | stripping acts line by line: stripping two parts of a file separately equals stripping the whole |
| Requires.StripLineTwice | sysusers_convert.py:245-258 | a line that survives stripping is left unchanged by a second stripping |
| Requires.StripTwice | sysusers_convert.py:243-261 | stripping a file a second time changes nothing |
| Requires.StripSubsequence | sysusers_convert.py:243-261 | stripping keeps the order of lines: stripping a subsequence of a file gives a subsequence of the stripped file |
| Requires.PlainLineKept | sysusers_convert.py:245-258 | a line opening with neither `R` nor `%` is left as it is |
| Requires.KeptRunSurvives | sysusers_convert.py:243-261 | a run of consecutive lines that stripping leaves alone comes through the stripping of the file, in order |
| Convert.InsertKeeps | sysusers_convert.py:235-241 | an insertion keeps every original line and adds every line of the block |
| Convert.StripKeeps | sysusers_convert.py:243-261 | a line that stripping leaves alone survives stripping of the file |
| Convert.AddConfig | sysusers_convert.py:209-241 | the `%prep` stage succeeds exactly when `%prep` is found and the manifest is generated; the here-document with the generated manifest then sits at the end of the `%prep` body, and deleting it gives back the input |
| Convert.AddInstallCommand | sysusers_convert.py:263-268 | the `%install` stage succeeds exactly when `%install` is found; the blank line and the install command then sit at the end of its body, and deleting them gives back the input |
| Convert.AddFilesEntry | sysusers_convert.py:270-275 | the `%files` stage succeeds exactly when the `%files` section of the package is found; its entry then sits at the end of that body, and deleting it gives back the input |
| Convert.AddInstall | sysusers_convert.py:263-275 | the install stage succeeds exactly when both of its steps do, the `%files` section being looked up after the install command went in; the output is three lines longer, the `%files` entry sits at the end of the `%files` body of the file with the install command, deleting it gives back that file, in which the blank line and the install command sit at the end of the `%install` body and whose deletion gives back the input; every input line is kept in order |
| Convert.AddManifest | sysusers_convert.py:209-275 | without a compat marker, what is left of the file after stripping, and the whole here-document with the manifest, appear in order in the output, together with the install command and the `%files` entry |
| Convert.AddManifestSucceeds | sysusers_convert.py:209-275 | the manifest stages succeed exactly when the `%prep` stage and then the install stage do |
| Convert.PrepareFinds | sysusers_convert.py:134-207 | the `%pre` stages use the first `%pre` section and what was extracted from it, delete a range covering every recorded call and keep the validated accounts; they succeed exactly when locating, extraction, the range and validation all do, and fail with the locating, extraction or range error when that stage is the first to fail |
| Convert.Convert | sysusers_convert.py:134-275 | a conversion fails exactly as the `%pre` stages do or, without a compat marker, as the manifest stages do; with a compat marker it always succeeds and the result is the stripped file less the deleted range, which is shorter than the input; without one the result is what the manifest stages give for the file less that range |

## Left out

- The command line, directory handling, reading and writing files, the diff,
  `rpmdev-bumpspec` and `git commit` (sysusers_convert.py:13-22, 113-132,
  277-307): input and output around the conversion of one file.
- The macro expansion through a temporary spec file and `rpmspec -P`
  (sysusers_convert.py:48-56) is the `resolveMacro` parameter of the
  environment; `shlex.split` and `repr` are the `tokenize` and `quote`
  parameters. Their own behaviour is outside the model.
- Debug and progress printing (sysusers_convert.py:61-63, 76, 119, 129, 152,
  158, 160, 165, 167, 254) has no effect on the result.
- The option parser replaces `argparse` for the three fixed tables. It reads
  separate tokens only: bundled short flags, `--flag=value`, abbreviated long
  flags and the `--` terminator are not modelled. Negative numbers, and tokens
  that start with `-` and hold a space, are taken as flags, and `-h` is an
  unknown flag rather than a help exit.
- Regular-expression classes `\w` and `\s` and `str.split()` cover ASCII only
  (whitespace being space, tab, line feed, carriage return, vertical tab, form
  feed and the separators 0x1C-0x1F); Python also applies them to non-ASCII
  letters, digits and whitespace.
- Lines hold no newline character, as the script strips one per line when it
  reads the file.
- Parsing an empty token list (an unset loop variable in
  sysusers_convert.py:77-83) cannot arise, since a matched command text always
  starts with the command name; the model gives no arguments there.
- The deletion of dependency lines by index in reverse order
  (sysusers_convert.py:260-261) is modelled as a filter over the lines, which
  removes the same lines.
- Deletion.LeastStart: the script seeds the minimum with the float `1e9`,
  which only wins in a file of more than a billion lines; the model takes the
  minimum of the recorded starts alone.
- Grammar.Parse, Grammar.ParseGroupadd, Grammar.ParseUseradd and
  Grammar.ParseSectionArgs carry no contract of their own; what they do is
  stated by the round-trip lemmas (GrammarRoundTrip), the positional and
  missing-value lemmas (GrammarErrors) and Grammar.UnknownFlagRejected,
  Grammar.ParseAppend and Grammar.LastValueWins.
- Convert.AddManifest: states that the stripped file and the here-document
  appear in order in the output, not that nothing else does; the positions of
  the inserted lines are stated stage by stage (Convert.AddConfig,
  Convert.AddInstallCommand, Convert.AddFilesEntry).
- Extract.ExtractScriptlet: states the records and the spans as two lists read
  from the body; that the record at each place comes from the line at the
  span at the same place is stated over those lists by Extract.GroupsPaired
  and Extract.UsersPaired rather than in its own contract.
- Re-running the tool over a file it already converted is documented as leaving
  the file unchanged; the code deletes the compat marker lines and strips
  dependencies again, and the model follows the code (`Convert.Convert` shows
  the output is then strictly shorter).
