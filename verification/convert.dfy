/** The conversion of one spec file, stage by stage: find `%pre`, read its
    groupadd/useradd calls, delete them, check the records, and unless the
    file already uses the compat macro, write the manifest into `%prep` as a
    here-document; then drop the tool dependencies, and again unless the
    compat macro is used, install the manifest in `%install` and list it in
    the `%files` section of the package `%pre` belongs to. */
module Convert {
  import opened Results
  import opened Text
  import opened Lines
  import opened Grammar
  import opened Sections
  import opened Environment
  import opened Extract
  import opened Deletion
  import opened Manifest
  import opened Requires

  /** The line that opens the here-document holding the manifest. */
  function CatLine(pkg: string): string {
    "cat >" + pkg + ".sysusers.conf <<EOF"
  }

  /** The here-document that writes the manifest during `%prep`. */
  function ConfigBlock(pkg: string, manifest: seq<string>): seq<string> {
    ["", "# Create a sysusers.d config file", CatLine(pkg)] + manifest + ["EOF"]
  }

  /** The `%install` line that copies the manifest into the build root. */
  function InstallLine(pkg: string): string {
    "install -m0644 -D " + pkg + ".sysusers.conf %{buildroot}%{_sysusersdir}/" + pkg + ".conf"
  }

  /** The `%files` entry for the installed manifest. */
  function FilesLine(pkg: string): string {
    "%{_sysusersdir}/" + pkg + ".conf"
  }

  /** What a successful conversion found and produced. */
  datatype Conversion = Conversion(pre: Section, found: Scriptlet, removed: Span, output: seq<string>)

  /** The `%prep` stage: the manifest is generated and written at the end of
      the section body. It fails when there is no `%prep` or a user has no
      shell; otherwise the here-document sits at the end of the body, and
      taking it out again gives back the input. */
  function AddConfig(env: Env, lines: seq<string>, a: Accounts): (r: Result<seq<string>>)
    ensures r.Ok? <==> Locate(lines, "prep", None).Ok? && Generate(env, a).Ok?
    ensures r.Ok? ==>
              var p := Locate(lines, "prep", None).value.where.stop;
              var block := ConfigBlock(env.package, Generate(env, a).value);
              && p <= |lines|
              && p + |block| <= |r.value|
              && r.value[p..p + |block|] == block
              && Delete(r.value, p, p + |block|) == lines
    ensures r.Ok? ==> Subsequence(lines, r.value)
  {
    var prep :- Locate(lines, "prep", None);
    var m :- Generate(env, a);
    var block := ConfigBlock(env.package, m);
    var out := Insert(lines, prep.where.stop, block);
    InsertPlaces(lines, prep.where.stop, block);
    DeleteInsert(lines, prep.where.stop, block);
    InsertSubsequence(lines, prep.where.stop, block);
    Ok(out)
  }

  /** The two lines added to `%install`. */
  function InstallBlock(pkg: string): seq<string> {
    ["", InstallLine(pkg)]
  }

  /** The `%install` stage: the install command goes at the end of the
      `%install` body, and taking it out again gives back the input. */
  function AddInstallCommand(env: Env, lines: seq<string>): (r: Result<seq<string>>)
    ensures r.Ok? <==> Locate(lines, "install", None).Ok?
    ensures r.Ok? ==>
              var i := Locate(lines, "install", None).value.where.stop;
              && i + 2 <= |r.value|
              && r.value[i] == "" && r.value[i + 1] == InstallLine(env.package)
              && Delete(r.value, i, i + 2) == lines
    ensures r.Ok? ==> Subsequence(lines, r.value)
  {
    var install :- Locate(lines, "install", None);
    var i, block := install.where.stop, InstallBlock(env.package);
    assert |block| == 2;
    var out := Insert(lines, i, block);
    DeleteInsert(lines, i, block);
    InsertSubsequence(lines, i, block);
    Ok(out)
  }

  /** The `%files` stage: the manifest's entry goes at the end of the body of
      the `%files` section for `want`'s package, and taking it out again
      gives back the input. */
  function AddFilesEntry(env: Env, lines: seq<string>, want: SectionArgs): (r: Result<seq<string>>)
    ensures r.Ok? <==> Locate(lines, "files", Some(want)).Ok?
    ensures r.Ok? ==>
              var f := Locate(lines, "files", Some(want)).value.where.stop;
              && f < |r.value|
              && r.value[f] == FilesLine(env.package)
              && Delete(r.value, f, f + 1) == lines
    ensures r.Ok? ==> Subsequence(lines, r.value)
  {
    var files :- Locate(lines, "files", Some(want));
    var out := Insert(lines, files.where.stop, [FilesLine(env.package)]);
    InsertPlaces(lines, files.where.stop, [FilesLine(env.package)]);
    assert out[files.where.stop] == out[files.where.stop..files.where.stop + 1][0];
    DeleteInsert(lines, files.where.stop, [FilesLine(env.package)]);
    InsertSubsequence(lines, files.where.stop, [FilesLine(env.package)]);
    Ok(out)
  }

  /** The `%install` stage and then the `%files` stage, the `%files` section
      being looked up after the install command went in. */
  function AddInstall(env: Env, lines: seq<string>, want: SectionArgs): (r: Result<seq<string>>)
    ensures r.Ok? <==>
              && AddInstallCommand(env, lines).Ok?
              && AddFilesEntry(env, AddInstallCommand(env, lines).value, want).Ok?
    ensures r.Ok? ==> Subsequence(lines, r.value)
    ensures r.Ok? ==> InstallLine(env.package) in r.value && FilesLine(env.package) in r.value
    ensures r.Ok? ==>
              var b := AddInstallCommand(env, lines).value;
              var i := Locate(lines, "install", None).value.where.stop;
              var f := Locate(b, "files", Some(want)).value.where.stop;
              && |r.value| == |lines| + 3
              && f < |r.value| && r.value[f] == FilesLine(env.package)
              && Delete(r.value, f, f + 1) == b
              && i + 2 <= |b| && b[i] == "" && b[i + 1] == InstallLine(env.package)
              && Delete(b, i, i + 2) == lines
  {
    var b :- AddInstallCommand(env, lines);
    var out :- AddFilesEntry(env, b, want);
    var i := Locate(lines, "install", None).value.where.stop;
    var f := Locate(b, "files", Some(want)).value.where.stop;
    assert |b| == |lines| + 2 && |out| == |b| + 1 by {
      assert |Delete(b, i, i + 2)| == |b| - 2 && |Delete(out, f, f + 1)| == |out| - 1;
    }
    SubsequenceTrans(lines, b, out);
    SubsequenceMember(b, out, i + 1);
    Ok(out)
  }

  /** What the `%pre` stages find: the section, the calls read from it, the
      lines to delete and the checked records. */
  datatype Prepared = Prepared(pre: Section, found: Scriptlet, removed: Span, accounts: Accounts)

  /** The `%pre` stages: find the first `%pre`, read its calls, work out the
      lines to delete and check the records. */
  function Prepare(env: Env, lines: seq<string>): (r: Result<Prepared>)
    ensures r.Ok? ==> r.value.removed.start < r.value.removed.stop < |lines|
  {
    var pre :- Locate(lines, "pre", None);
    var s :- ExtractScriptlet(env, lines, pre.where);
    var d :- Range(lines, pre.where, s);
    SpansInside(s, pre.where, |lines|);
    var a :- Validate(env, s.groups, s.users);
    Ok(Prepared(pre, s, d, a))
  }

  /** The `%pre` stages use the first `%pre` section and what was read from
      it, delete a range covering every recorded call, and keep the checked
      records; a file without `%pre` is refused with the locating error. */
  lemma PrepareFinds(env: Env, lines: seq<string>)
    ensures Locate(lines, "pre", None).Err? ==> Prepare(env, lines) == Err(Locate(lines, "pre", None).error)
    ensures Prepare(env, lines).Ok? ==>
              var p := Prepare(env, lines).value;
              && Locate(lines, "pre", None) == Ok(p.pre)
              && ExtractScriptlet(env, lines, p.pre.where) == Ok(p.found)
              && (forall sp <- Spans(p.found) :: p.removed.start <= sp.start && sp.stop <= p.removed.stop)
              && Validate(env, p.found.groups, p.found.users) == Ok(p.accounts)
    ensures Prepare(env, lines).Ok? <==>
              && Locate(lines, "pre", None).Ok?
              && var w := Locate(lines, "pre", None).value.where;
                 && ExtractScriptlet(env, lines, w).Ok?
                 && Range(lines, w, ExtractScriptlet(env, lines, w).value).Ok?
                 && Validate(env, ExtractScriptlet(env, lines, w).value.groups, ExtractScriptlet(env, lines, w).value.users).Ok?
    ensures Locate(lines, "pre", None).Ok? ==>
              var w := Locate(lines, "pre", None).value.where;
              && (ExtractScriptlet(env, lines, w).Err? ==> Prepare(env, lines) == Err(ExtractScriptlet(env, lines, w).error))
              && (ExtractScriptlet(env, lines, w).Ok? && Range(lines, w, ExtractScriptlet(env, lines, w).value).Err? ==>
                    Prepare(env, lines) == Err(Range(lines, w, ExtractScriptlet(env, lines, w).value).error))
  {
    var lp := Locate(lines, "pre", None);
    if lp.Ok? {
      var es := ExtractScriptlet(env, lines, lp.value.where);
      if es.Ok? {
        var s := es.value;
        var rg := Range(lines, lp.value.where, s);
        if rg.Ok? {
          SpansInside(s, lp.value.where, |lines|);
          var v := Validate(env, s.groups, s.users);
          if v.Ok? {
            assert Prepare(env, lines) == Ok(Prepared(lp.value, s, rg.value, v.value));
          } else {
            assert Prepare(env, lines) == Err(v.error);
          }
        } else {
          assert Prepare(env, lines) == Err(rg.error);
        }
      } else {
        assert Prepare(env, lines) == Err(es.error);
      }
    }
  }

  /** The whole conversion of one spec file: the `%pre` stages, then the
      deletion of the calls; a file that uses the compat macro is only
      stripped of its tool dependencies, any other one gets the manifest. */
  function Convert(env: Env, lines: seq<string>): (r: Result<Conversion>)
    ensures Prepare(env, lines).Err? ==> r == Err(Prepare(env, lines).error)
    ensures r.Ok? ==>
              && Prepare(env, lines).Ok?
              && var p := Prepare(env, lines).value;
                 r.value.pre == p.pre && r.value.found == p.found && r.value.removed == p.removed
    ensures Prepare(env, lines).Ok? && HasCompat(Prepare(env, lines).value.found) ==>
              var p := Prepare(env, lines).value;
              && r.Ok?
              && r.value.output == Strip(Delete(lines, p.removed.start, p.removed.stop))
              && |r.value.output| < |lines|
    ensures Prepare(env, lines).Ok? && !HasCompat(Prepare(env, lines).value.found) ==>
              var p := Prepare(env, lines).value;
              && (r.Ok? <==> AddManifest(env, Delete(lines, p.removed.start, p.removed.stop), p.accounts, p.pre.args).Ok?)
              && (r.Ok? ==> AddManifest(env, Delete(lines, p.removed.start, p.removed.stop), p.accounts, p.pre.args) == Ok(r.value.output))
  {
    var p :- Prepare(env, lines);
    var body := Delete(lines, p.removed.start, p.removed.stop);
    if HasCompat(p.found) then
      Ok(Conversion(p.pre, p.found, p.removed, Strip(body)))
    else
      var out :- AddManifest(env, body, p.accounts, p.pre.args);
      Ok(Conversion(p.pre, p.found, p.removed, out))
  }

  /** The stages that run when the file does not use the compat macro: the
      manifest goes into `%prep`, the tool dependencies are dropped, and the
      manifest is installed and listed. What is left of the input after the
      stripping, and the whole here-document, come through in order. */
  function AddManifest(env: Env, body: seq<string>, a: Accounts, want: SectionArgs): (r: Result<seq<string>>)
    ensures r.Ok? ==>
              && Generate(env, a).Ok?
              && Subsequence(Strip(body), r.value)
              && Subsequence(ConfigBlock(env.package, Generate(env, a).value), r.value)
              && InstallLine(env.package) in r.value
              && FilesLine(env.package) in r.value
  {
    var withConfig :- AddConfig(env, body, a);
    var out :- AddInstall(env, Strip(withConfig), want);
    var m := Generate(env, a).value;
    var block := ConfigBlock(env.package, m);
    var p := Locate(body, "prep", None).value.where.stop;
    StripSubsequence(body, withConfig);
    SubsequenceTrans(Strip(body), Strip(withConfig), out);
    ManifestKinds(env, a);
    BlockKept(env.package, m);
    KeptRunSurvives(withConfig, p, p + |block|);
    SubsequenceTrans(block, Strip(withConfig), out);
    Ok(out)
  }

  /** The manifest goes in exactly when both of its stages succeed. */
  lemma AddManifestSucceeds(env: Env, body: seq<string>, a: Accounts, want: SectionArgs)
    ensures AddManifest(env, body, a, want).Ok? <==>
              && AddConfig(env, body, a).Ok?
              && AddInstall(env, Strip(AddConfig(env, body, a).value), want).Ok?
  {
  }

  /** No line of the here-document is a dependency line, provided the
      manifest lines are `g`, `u` and `m` lines. */
  lemma BlockKept(pkg: string, manifest: seq<string>)
    requires forall l <- manifest :: StartsWith(l, "g ") || StartsWith(l, "u ") || StartsWith(l, "m ")
    ensures AllKept(ConfigBlock(pkg, manifest))
  {
    var block := ConfigBlock(pkg, manifest);
    forall x <- block
      ensures StripLine(x) == Some(x)
    {
      var k :| 0 <= k < |block| && block[k] == x;
      if k < 3 {
        assert x == "" || x[0] == '#' || x[0] == 'c';
      } else if k < 3 + |manifest| {
        assert x == manifest[k - 3];
        assert x in manifest;
        assert x[0] == 'g' || x[0] == 'u' || x[0] == 'm';
      } else {
        assert x == "EOF";
      }
      PlainLineKept(x);
    }
    AllKeptOf(block);
  }

  /** An insertion loses no line and keeps every inserted line. */
  lemma InsertKeeps(lines: seq<string>, at: nat, block: seq<string>)
    requires at <= |lines|
    ensures forall x <- lines :: x in Insert(lines, at, block)
    ensures forall x <- block :: x in Insert(lines, at, block)
  {
    var r := Insert(lines, at, block);
    forall x <- lines
      ensures x in r
    {
      var i :| 0 <= i < |lines| && lines[i] == x;
      if i < at {
        assert r[i] == x;
      } else {
        assert r[i + |block|] == x;
      }
    }
    forall x <- block
      ensures x in r
    {
      var k :| 0 <= k < |block| && block[k] == x;
      assert r[at + k] == x;
    }
  }

  /** A line stripping leaves alone survives the stripping of the file. */
  lemma {:induction false} StripKeeps(lines: seq<string>, x: string)
    requires x in lines && StripLine(x) == Some(x)
    ensures x in Strip(lines)
  {
    if lines[0] != x {
      StripKeeps(lines[1..], x);
    }
  }
}
