/** The patch script's entry point: it picks the application file, backs it up, applies
    the four rewrites in a fixed order and writes the result next to it. Files are a map
    from name to contents in the script's directory; the console messages are left out. */
module ApplyPatch {
  import opened Wrappers
  import opened Text
  import Sidebar
  import FlashPatch
  import IndexesPatch
  import InlineNavPatch

  const AppFile: string := "app.py"
  const AltFile: string := "hab_os_app.py"
  const OutFile: string := "app_patched.py"

  /** `Path.with_suffix(".py.bak")` on a name ending in `.py`. */
  function BackupOf(name: string): string {
    name + ".bak"
  }

  /** The exit status and the files after a run. */
  datatype RunResult = RunResult(status: int, files: map<string, string>)

  /** The four rewrites, in the order the script applies them. */
  function ApplyAll(code: string): string {
    var afterSidebar := Sidebar.PatchSidebar(code);
    var afterFlash := FlashPatch.PatchFlash(afterSidebar);
    var afterIndexes := IndexesPatch.PatchIndexes(afterFlash);
    InlineNavPatch.PatchInlineNav(afterIndexes)
  }

  /** `app.py` when present, otherwise `hab_os_app.py`, otherwise nothing. */
  function SourceFile(files: map<string, string>): (r: Option<string>)
    ensures r.Some? ==> r.value in files
    ensures r.None? <==> AppFile !in files && AltFile !in files
    ensures AppFile in files ==> r == Some(AppFile)
    ensures AppFile !in files && AltFile in files ==> r == Some(AltFile)
  {
    if AppFile in files then Some(AppFile)
    else if AltFile in files then Some(AltFile)
    else None
  }

  /** `main`: exit with status 2 when there is no source; otherwise copy the source to its
      backup, then write the rewritten text to `app_patched.py`. */
  function Main(files: map<string, string>): RunResult {
    match SourceFile(files)
    case None => RunResult(2, files)
    case Some(src) => BackUpAndWrite(files, src, ApplyAll)
  }

  /** The successful run: the backup is written first, then the source is read back and
      the output written. */
  function BackUpAndWrite(files: map<string, string>, src: string, patch: string -> string): RunResult
    requires src in files
  {
    var backedUp := files[BackupOf(src) := files[src]];
    var code := backedUp[src];
    RunResult(0, backedUp[OutFile := patch(code)])
  }

  /** The backup holds the source as it was, the output holds the patched source, and every
      other file, the source included, is unchanged. */
  lemma BackUpAndWriteSpec(files: map<string, string>, src: string, patch: string -> string)
    requires src in files
    ensures var r := BackUpAndWrite(files, src, patch);
            r.status == 0
            && r.files.Keys == files.Keys + {BackupOf(src), OutFile}
            && r.files[BackupOf(src)] == files[src]
            && r.files[OutFile] == patch(files[src])
            && forall f :: f in files && f != BackupOf(src) && f != OutFile ==> r.files[f] == files[f]
  {
    var backup := BackupOf(src);
    assert backup != src by {
      assert |backup| == |src| + 4;
    }
    assert backup != OutFile by {
      assert backup[|backup| - 1] == 'k';
    }
  }

  /** Without a source file the run stops with status 2 and writes nothing. */
  lemma MainWithoutSource(files: map<string, string>)
    requires AppFile !in files && AltFile !in files
    ensures Main(files).status == 2 && Main(files).files == files
  {
  }

  /** With a source file the run succeeds, reading `app.py` when both are present: the
      backup holds the source as it was, `app_patched.py` the source with the four rewrites
      applied in order, and every other file (the source itself included) is unchanged. */
  lemma MainWithSource(files: map<string, string>)
    requires AppFile in files || AltFile in files
    ensures var src := if AppFile in files then AppFile else AltFile;
            var r := Main(files);
            r.status == 0
            && r.files.Keys == files.Keys + {BackupOf(src), OutFile}
            && r.files[BackupOf(src)] == files[src]
            && r.files[OutFile] == ApplyAll(files[src])
            && forall f :: f in files && f != BackupOf(src) && f != OutFile ==> r.files[f] == files[f]
  {
    var src := if AppFile in files then AppFile else AltFile;
    BackUpAndWriteSpec(files, src, ApplyAll);
  }

  /** A text that none of the four rewrites finds an anchor in passes through unchanged. */
  lemma ApplyAllUntouched(code: string)
    requires forall i, j :: !Sidebar.CallAt(code, Sidebar.ConfigCall, i, j)
    requires forall q, b, d :: !FlashPatch.IsSite(code, q, b, d, FlashPatch.FlashHeader,
                                                  FlashPatch.BuggyCall, FlashPatch.AppendOpen)
    requires !Contains(code, IndexesPatch.Needle) && !Contains(code, IndexesPatch.Anchor)
    requires !Contains(code, InlineNavPatch.NavAnchor)
    ensures ApplyAll(code) == code
  {
    Sidebar.PatchSidebarNoCall(code);
    FlashPatch.PatchFlashNoMatch(code);
    IndexesPatch.PatchIndexesNoAnchor(code);
    InlineNavPatch.PatchInlineNavSkips(code);
  }
}
