/**
 * The AFNI preprocessing front end (Codes/2_afni_preproc_gui.py): check the required
 * fields, derive the BIDS input paths and the result folder, stop on missing input files,
 * and assemble the `afni_proc.py` command line, with slice-timing options only when a
 * slice-timing file is given.
 *
 * `isFile` stands for `os.path.isfile`. Creating and entering the result folder and running
 * `3drefit` and `afni_proc.py` are outside the model; a launched run records the argvs.
 */
module AfniPreproc {
  import opened PyText
  import opened PyPath

  // ------------------------------------------------------------------ inputs

  /** `all([subj, session, bids_dir, stim_dir, output_dir, template_path])`; the slice-timing file is optional. */
  predicate RequiredFilled(subj: string, session: string, bidsDir: string, stimDir: string,
                           outputDir: string, templatePath: string) {
    subj != [] && session != [] && bidsDir != [] && stimDir != [] && outputDir != [] && templatePath != []
  }

  /** `f"{subj}-{session}_SB"`. */
  function TaskId(subj: string, session: string): (r: string)
    ensures |r| == |subj| + |session| + 4
    ensures r[..|subj|] == subj && r[|subj|] == '-' && r[|subj| + 1..|subj| + 1 + |session|] == session
    ensures r[|r| - 3..] == "_SB"
  {
    subj + "-" + session + "_SB"
  }

  /** `f"{subj}_{session}_task-craving_run-01_bold.nii.gz"`. */
  function EpiName(subj: string, session: string): string {
    subj + "_" + session + "_task-craving_run-01_bold.nii.gz"
  }

  /** `f"{subj}_{session}_T1w_{anat_echo}.nii.gz"`. */
  function AnatName(subj: string, session: string, echo: string): string {
    subj + "_" + session + "_T1w_" + echo + ".nii.gz"
  }

  /** The task EPI run inside the subject's `func` folder. */
  function EpiFile(bidsDir: string, subj: string, session: string): string {
    JoinAll(bidsDir, [subj, session, "func", EpiName(subj, session)])
  }

  /** The chosen echo of the T1 inside the subject's `anat` folder. */
  function AnatFile(bidsDir: string, subj: string, session: string, echo: string): string {
    JoinAll(bidsDir, [subj, session, "anat", AnatName(subj, session, echo)])
  }

  function StimMeth(stimDir: string): string {
    Join(stimDir, "meth-R2.1D")
  }

  function StimNeut(stimDir: string): string {
    Join(stimDir, "neutral-R2.1D")
  }

  /** The five files the run needs, in the order they are checked. */
  function RequiredFiles(bidsDir: string, subj: string, session: string, echo: string, stimDir: string,
                         templatePath: string): seq<string> {
    [EpiFile(bidsDir, subj, session), AnatFile(bidsDir, subj, session, echo),
     StimMeth(stimDir), StimNeut(stimDir), templatePath]
  }

  /** With plain identifiers the EPI path is `bids/subj/session/func/<subj>_<session>_task-craving_run-01_bold.nii.gz`. */
  lemma EpiFileLayout(bidsDir: string, subj: string, session: string)
    requires bidsDir != [] && bidsDir[|bidsDir| - 1] != '/'
    requires subj != [] && session != [] && '/' !in subj && '/' !in session
    ensures EpiFile(bidsDir, subj, session) ==
            bidsDir + "/" + subj + "/" + session + "/func/" + EpiName(subj, session)
  {
    var name := EpiName(subj, session);
    var d := bidsDir + "/" + subj + "/" + session;
    assert JoinAll(bidsDir, [subj, session, "func", name]) == d + "/" + "func" + "/" + name by {
      assert name[0] == subj[0];
      SubjectFileLayout(bidsDir, subj, session, "func", name);
    }
    assert d + "/" + "func" + "/" + name == d + "/func/" + name by {
      assert "/" + "func" + "/" == "/func/";
      ConcatAssoc(d, "/" + "func", "/");
    }
  }

  /** With plain identifiers the T1 path is `bids/subj/session/anat/<subj>_<session>_T1w_<echo>.nii.gz`. */
  lemma AnatFileLayout(bidsDir: string, subj: string, session: string, echo: string)
    requires bidsDir != [] && bidsDir[|bidsDir| - 1] != '/'
    requires subj != [] && session != [] && '/' !in subj && '/' !in session
    ensures AnatFile(bidsDir, subj, session, echo) ==
            bidsDir + "/" + subj + "/" + session + "/anat/" + AnatName(subj, session, echo)
  {
    var name := AnatName(subj, session, echo);
    var d := bidsDir + "/" + subj + "/" + session;
    assert JoinAll(bidsDir, [subj, session, "anat", name]) == d + "/" + "anat" + "/" + name by {
      assert name[0] == subj[0];
      SubjectFileLayout(bidsDir, subj, session, "anat", name);
    }
    assert d + "/" + "anat" + "/" + name == d + "/anat/" + name by {
      assert "/" + "anat" + "/" == "/anat/";
      ConcatAssoc(d, "/" + "anat", "/");
    }
  }

  lemma SubjectFileLayout(bidsDir: string, subj: string, session: string, kind: string, name: string)
    requires bidsDir != [] && bidsDir[|bidsDir| - 1] != '/'
    requires subj != [] && session != [] && '/' !in subj && '/' !in session
    requires kind != [] && '/' !in kind && name != [] && name[0] != '/'
    ensures JoinAll(bidsDir, [subj, session, kind, name]) ==
            bidsDir + "/" + subj + "/" + session + "/" + kind + "/" + name
  {
    assert subj[0] != '/' && subj[|subj| - 1] != '/';
    assert session[0] != '/' && session[|session| - 1] != '/';
    assert kind[0] != '/' && kind[|kind| - 1] != '/';
    JoinAllFour(bidsDir, subj, session, kind, name);
  }

  // ----------------------------------------------------------- missing files

  /** The paths in `paths` that are not files, in their order. */
  function NotFiles(paths: seq<string>, isFile: string -> bool): (r: seq<string>)
    ensures |r| <= |paths|
    ensures forall k :: 0 <= k < |r| ==> r[k] in paths && !isFile(r[k])
    ensures forall p :: p in paths && !isFile(p) ==> p in r
  {
    if paths == [] then []
    else
      var n := |paths|;
      var prev := NotFiles(paths[..n - 1], isFile);
      assert forall p :: p in paths ==> p in paths[..n - 1] || p == paths[n - 1];
      assert forall p :: p in paths[..n - 1] ==> p in paths;
      if isFile(paths[n - 1]) then prev else prev + [paths[n - 1]]
  }

  /** No file is missing exactly when every path is a file. */
  lemma NothingMissing(paths: seq<string>, isFile: string -> bool)
    ensures NotFiles(paths, isFile) == [] <==> forall k :: 0 <= k < |paths| ==> isFile(paths[k])
  {
    if exists k :: 0 <= k < |paths| && !isFile(paths[k]) {
      var k :| 0 <= k < |paths| && !isFile(paths[k]);
      assert paths[k] in NotFiles(paths, isFile);
    }
  }

  /** The `for path in [...]` loop appending each path that is not a file to `missing`. */
  method MissingFiles(paths: seq<string>, isFile: string -> bool) returns (missing: seq<string>)
    ensures missing == NotFiles(paths, isFile)
  {
    missing := [];
    for i := 0 to |paths|
      invariant missing == NotFiles(paths[..i], isFile)
    {
      var path := paths[i];
      assert paths[..i + 1][..i] == paths[..i];
      if !isFile(path) {
        missing := missing + [path];
      }
    }
    assert paths[..|paths|] == paths;
  }

  // ------------------------------------------------------------ the command

  const Blocks: seq<string> := ["tshift", "align", "tlrc", "volreg", "blur", "mask", "scale", "regress"]

  /** `f"BLOCK({int(block_duration)},1)"`. */
  function BlockBasis(duration: nat): string {
    "BLOCK(" + Decimal(duration) + ",1)"
  }

  /** The options `cmd` is extended with after the `-blocks` list and the optional slice timing. */
  function CommandTail(templatePath: string, stimMeth: string, stimNeut: string, basis: string): seq<string> {
    AlignOptions(templatePath) + RegressOptions(stimMeth, stimNeut, basis) + ["-remove_preproc_files", "-execute"]
  }

  /** The alignment, warping and blurring options of the tail. */
  function AlignOptions(templatePath: string): seq<string> {
    ["-anat_uniform_method", "unifize",
     "-align_opts_aea", "-cost", "lpc+ZZ", "-giant_move",
     "-tlrc_base", templatePath,
     "-tlrc_NL_warp",
     "-volreg_align_to", "MIN_OUTLIER",
     "-volreg_align_e2a",
     "-volreg_tlrc_warp",
     "-volreg_warp_dxyz", "2.0",
     "-blur_size", "6.0"]
  }

  /** The regression options of the tail: the two stimulus classes, censoring and the contrast. */
  function RegressOptions(stimMeth: string, stimNeut: string, basis: string): seq<string> {
    ["-regress_stim_times", stimMeth, stimNeut,
     "-regress_stim_labels", "meth", "neutral",
     "-regress_basis_multi", basis, basis,
     "-regress_censor_motion", "0.3",
     "-regress_censor_outliers", "0.1",
     "-regress_opts_3dD", "-bout",
     "-gltsym", "SYM: meth -neutral",
     "-glt_label", "1", "meth_vs_neutral"]
  }

  /** Where the template, the stimulus files and the basis functions sit in the tail, which closes the run. */
  lemma CommandTailShape(templatePath: string, stimMeth: string, stimNeut: string, basis: string)
    ensures var t := CommandTail(templatePath, stimMeth, stimNeut, basis);
            && |t| == 39 && t[0] == "-anat_uniform_method"
            && t[6] == "-tlrc_base" && t[7] == templatePath
            && t[17] == "-regress_stim_times" && t[18] == stimMeth && t[19] == stimNeut
            && t[23] == "-regress_basis_multi" && t[24] == basis && t[25] == basis
            && t[37] == "-remove_preproc_files" && t[38] == "-execute"
  {
    var align, regress := AlignOptions(templatePath), RegressOptions(stimMeth, stimNeut, basis);
    assert |align| == 17 && align[0] == "-anat_uniform_method" && align[6] == "-tlrc_base" && align[7] == templatePath;
    assert |regress| == 20 && regress[0] == "-regress_stim_times" && regress[1] == stimMeth && regress[2] == stimNeut;
    assert regress[6] == "-regress_basis_multi" && regress[7] == basis && regress[8] == basis;
  }

  /**
   * `cmd` as the script builds it: the fixed head up to the `-blocks` list, the slice-timing
   * options only for a non-empty slice-timing file, then the fixed tail.
   */
  method BuildCommand(taskId: string, epiFile: string, anatFile: string, templatePath: string,
                      stimMeth: string, stimNeut: string, sliceTimingFile: string, blockDuration: nat)
    returns (cmd: seq<string>)
    ensures |cmd| == if sliceTimingFile != [] then 60 else 57
    ensures cmd[..5] == ["afni_proc.py", "-subj_id", taskId, "-dsets", epiFile]
    ensures cmd[5..10] == ["-copy_anat", anatFile, "-anat_has_skull", "yes", "-blocks"] && cmd[10..18] == Blocks
    ensures sliceTimingFile != [] ==> cmd[18..21] == ["-tshift_opts_ts", "-tpattern", "@" + sliceTimingFile]
    ensures sliceTimingFile == [] ==> cmd[18] == "-anat_uniform_method"
    ensures var t := |cmd| - 39;
            && cmd[t] == "-anat_uniform_method"
            && cmd[t + 6] == "-tlrc_base" && cmd[t + 7] == templatePath
            && cmd[t + 17] == "-regress_stim_times" && cmd[t + 18] == stimMeth && cmd[t + 19] == stimNeut
            && cmd[t + 23] == "-regress_basis_multi"
            && cmd[t + 24] == BlockBasis(blockDuration) && cmd[t + 25] == BlockBasis(blockDuration)
    ensures cmd[|cmd| - 2..] == ["-remove_preproc_files", "-execute"]
  {
    var start := ["afni_proc.py", "-subj_id", taskId, "-dsets", epiFile];
    var anat := ["-copy_anat", anatFile, "-anat_has_skull", "yes", "-blocks"];
    cmd := start + anat + Blocks;
    ghost var head := cmd;
    assert head[..5] == start && head[5..10] == anat && head[10..18] == Blocks;
    if sliceTimingFile != [] {
      cmd := cmd + ["-tshift_opts_ts", "-tpattern", "@" + sliceTimingFile];
    }
    ghost var front := cmd;
    var tail := CommandTail(templatePath, stimMeth, stimNeut, BlockBasis(blockDuration));
    CommandTailShape(templatePath, stimMeth, stimNeut, BlockBasis(blockDuration));
    cmd := cmd + tail;
    assert cmd[..18] == head by {
      assert cmd[..|front|] == front && front[..18] == head;
    }
    assert cmd[..5] == head[..5] && cmd[5..10] == head[5..10] && cmd[10..18] == head[10..18];
    assert sliceTimingFile != [] ==> cmd[18..21] == front[18..21];
    assert cmd[|cmd| - 2..] == tail[37..] == [tail[37], tail[38]];
  }

  // ------------------------------------------------------------------ the run

  datatype Outcome =
    | FieldsMissing
    | FilesMissing(missing: seq<string>)
    | Launched(resultDir: string, refit: seq<string>, cmd: seq<string>)

  /**
   * The button handler: an empty required field stops it before anything else, a missing
   * input file stops it before any command; otherwise the template is refitted and
   * `afni_proc.py` runs from the result folder.
   */
  method Run(subj: string, session: string, bidsDir: string, stimDir: string, sliceTimingFile: string,
             blockDuration: nat, outputDir: string, templatePath: string, anatEcho: string,
             isFile: string -> bool)
    returns (outcome: Outcome)
    ensures outcome.FieldsMissing? <==> !RequiredFilled(subj, session, bidsDir, stimDir, outputDir, templatePath)
    ensures outcome.FilesMissing? ==>
              && RequiredFilled(subj, session, bidsDir, stimDir, outputDir, templatePath)
              && outcome.missing != []
              && outcome.missing == NotFiles(RequiredFiles(bidsDir, subj, session, anatEcho, stimDir, templatePath), isFile)
    ensures outcome.Launched? ==>
              && RequiredFilled(subj, session, bidsDir, stimDir, outputDir, templatePath)
              && (forall p :: p in RequiredFiles(bidsDir, subj, session, anatEcho, stimDir, templatePath) ==> isFile(p))
              && outcome.resultDir == Join(outputDir, TaskId(subj, session))
              && outcome.refit == ["3drefit", "-space", "MNI", templatePath]
              && |outcome.cmd| == (if sliceTimingFile != [] then 60 else 57)
              && outcome.cmd[..5] == ["afni_proc.py", "-subj_id", TaskId(subj, session), "-dsets", EpiFile(bidsDir, subj, session)]
              && (sliceTimingFile != [] ==> outcome.cmd[18..21] == ["-tshift_opts_ts", "-tpattern", "@" + sliceTimingFile])
              && outcome.cmd[|outcome.cmd| - 2..] == ["-remove_preproc_files", "-execute"]
  {
    if !RequiredFilled(subj, session, bidsDir, stimDir, outputDir, templatePath) {
      return FieldsMissing;
    }
    var taskId := TaskId(subj, session);
    var epiFile := EpiFile(bidsDir, subj, session);
    var anatFile := AnatFile(bidsDir, subj, session, anatEcho);
    var stimMeth := StimMeth(stimDir);
    var stimNeut := StimNeut(stimDir);
    var resultDir := Join(outputDir, taskId);
    var required := RequiredFiles(bidsDir, subj, session, anatEcho, stimDir, templatePath);
    var missing := MissingFiles(required, isFile);
    if missing != [] {
      return FilesMissing(missing);
    }
    NothingMissing(required, isFile);
    var cmd := BuildCommand(taskId, epiFile, anatFile, templatePath, stimMeth, stimNeut, sliceTimingFile, blockDuration);
    outcome := Launched(resultDir, ["3drefit", "-space", "MNI", templatePath], cmd);
  }
}
