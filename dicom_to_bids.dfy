/**
 * The DICOM-to-BIDS converter (Codes/1_dicom_to_bids_gui.py): a fixed table pairs each
 * scanner series folder with its BIDS modality; every row whose folder exists is handed
 * to `dcm2niix` with a BIDS output directory and file name, every other row is skipped.
 *
 * `isDir` stands for `os.path.isdir`. Creating the output directory and the converter's
 * own work are outside the model; a converted row records the argv it ran.
 */
module DicomToBids {
  import opened PyText
  import opened PyPath

  // ------------------------------------------------------------- the table

  /** The `DICOM_Folder` column. */
  const DicomFolders: seq<string> := [
    "T1W_MPR_VNAV_4E_0015", "T2W_SPC_VNAV_0026",
    "CRAVING_0021", "CRAVING_0022", "CRAVING_MB_0031",
    "CRAVING_MB_0032", "CRAVING_MB_SBREF_0030",
    "REST_PA_0010", "REST_PA_0011", "REST_PA_SBREF_0009"
  ]

  /** The `Modality` column. */
  const Modalities: seq<string> := [
    "T1w", "T2w",
    "task-craving_run-01_bold", "task-craving_run-02_bold",
    "task-craving_run-03_bold", "task-craving_run-04_bold",
    "task-craving_run-03_sbref",
    "task-rest_run-01_bold", "task-rest_run-02_bold",
    "task-rest_run-01_sbref"
  ]

  const RowCount: nat := 10

  /** The two columns line up, so every folder has exactly one modality. */
  lemma TableAligned()
    ensures |DicomFolders| == |Modalities| == RowCount
    ensures forall j, k :: 0 <= j < k < RowCount ==> DicomFolders[j] != DicomFolders[k]
  {
  }

  // ------------------------------------------------------------- the naming

  /** `"anat" if "T1w" in modality or "T2w" in modality else "func"`. */
  function ModalityType(modality: string): (t: string)
    ensures t == "anat" || t == "func"
    ensures t == "anat" <==> (exists i :: OccursAt(modality, "T1w", i)) || (exists i :: OccursAt(modality, "T2w", i))
  {
    if Contains(modality, "T1w") || Contains(modality, "T2w") then "anat" else "func"
  }

  /** Of the table's rows, only the two structural scans go to `anat`. */
  lemma OnlyStructuralRowsAreAnat()
    ensures forall k :: 0 <= k < RowCount ==> (ModalityType(Modalities[k]) == "anat" <==> k < 2)
  {
    assert OccursAt(Modalities[0], "T1w", 0);
    assert OccursAt(Modalities[1], "T2w", 0);
    forall k | 2 <= k < RowCount
      ensures ModalityType(Modalities[k]) == "func"
    {
      NoCapitalT(Modalities[k]);
    }
  }

  /** A text without a capital `T` contains neither `T1w` nor `T2w`. */
  lemma NoCapitalT(s: string)
    requires 'T' !in s
    ensures !Contains(s, "T1w") && !Contains(s, "T2w")
  {
    forall i
      ensures !OccursAt(s, "T1w", i) && !OccursAt(s, "T2w", i)
    {
      if 0 <= i <= |s| - 3 {
        assert s[i..i + 3][0] == s[i] && s[i] in s;
      }
    }
  }

  /** `os.path.join(dicom_root, dicom_subfolder)`. */
  function InputDir(dicomRoot: string, folder: string): string {
    Join(dicomRoot, folder)
  }

  /** `os.path.join(bids_root, subject, session, modality_type)`. */
  function OutputDir(bidsRoot: string, subject: string, session: string, modalityType: string): string {
    JoinAll(bidsRoot, [subject, session, modalityType])
  }

  /** `f"{subject}_{session}_{modality}"`. */
  function FileName(subject: string, session: string, modality: string): (r: string)
    ensures |r| == |subject| + |session| + |modality| + 2
    ensures r[..|subject|] == subject && r[|subject|] == '_'
    ensures r[|subject| + 1..|subject| + 1 + |session|] == session
    ensures r[|r| - |modality|..] == modality && r[|r| - |modality| - 1] == '_'
  {
    subject + "_" + session + "_" + modality
  }

  /** With plain identifiers the output directory is the BIDS tree `root/subject/session/type`. */
  lemma OutputDirLayout(bidsRoot: string, subject: string, session: string, modalityType: string)
    requires bidsRoot != [] && bidsRoot[|bidsRoot| - 1] != '/'
    requires '/' !in subject && '/' !in session && '/' !in modalityType
    requires subject != [] && session != [] && modalityType != []
    ensures OutputDir(bidsRoot, subject, session, modalityType) == bidsRoot + "/" + subject + "/" + session + "/" + modalityType
  {
    assert subject[0] != '/' && subject[|subject| - 1] != '/';
    assert session[0] != '/' && session[|session| - 1] != '/';
    assert modalityType[0] != '/';
    JoinAllThree(bidsRoot, subject, session, modalityType);
  }

  /** The last component of the output directory is the modality type. */
  lemma OutputDirType(bidsRoot: string, subject: string, session: string, modalityType: string)
    requires bidsRoot != [] && bidsRoot[|bidsRoot| - 1] != '/'
    requires '/' !in subject && '/' !in session && '/' !in modalityType
    requires subject != [] && session != [] && modalityType != []
    ensures BaseName(OutputDir(bidsRoot, subject, session, modalityType)) == modalityType
  {
    OutputDirLayout(bidsRoot, subject, session, modalityType);
    var parent := bidsRoot + "/" + subject + "/" + session;
    assert parent[|parent| - 1] == session[|session| - 1];
    assert Join(parent, modalityType) == parent + "/" + modalityType;
    BaseNameOfJoin(parent, modalityType);
  }

  /** `["dcm2niix", "-i", "n", "-z", "y", "-f", filename, "-o", output_dir, input_dir]`. */
  function ConverterArgv(fileName: string, outputDir: string, inputDir: string): seq<string> {
    ["dcm2niix", "-i", "n", "-z", "y", "-f", fileName, "-o", outputDir, inputDir]
  }

  // --------------------------------------------------------------- the rows

  /** What happened to one row of the table. */
  datatype RowResult =
    | Converted(folder: string, outputDir: string, argv: seq<string>)
    | Skipped(folder: string)

  /** One row `(folder, modality)` of the table: converted when its folder exists, skipped otherwise. */
  function RowOutcome(folder: string, modality: string, dicomRoot: string, bidsRoot: string, subject: string,
                      session: string, isDir: string -> bool): (r: RowResult)
    ensures r.folder == folder
    ensures r.Converted? <==> isDir(InputDir(dicomRoot, folder))
    ensures r.Converted? ==>
              r.outputDir == OutputDir(bidsRoot, subject, session, ModalityType(modality)) &&
              r.argv == ConverterArgv(FileName(subject, session, modality), r.outputDir, InputDir(dicomRoot, folder))
  {
    var inputDir := InputDir(dicomRoot, folder);
    if isDir(inputDir) then
      var outputDir := OutputDir(bidsRoot, subject, session, ModalityType(modality));
      Converted(folder, outputDir, ConverterArgv(FileName(subject, session, modality), outputDir, inputDir))
    else Skipped(folder)
  }

  datatype Outcome = FieldsMissing | Processed(rows: seq<RowResult>)

  /** Every field must be non-empty; whitespace counts as filled, as with Python's `not s`. */
  predicate FieldsFilled(dicomRoot: string, bidsRoot: string, subject: string, session: string) {
    dicomRoot != [] && bidsRoot != [] && subject != [] && session != []
  }

  /** `for _, row in df.iterrows()`: every row is visited in order and a skipped row does not stop the later ones. */
  method ProcessRows(folders: seq<string>, modalities: seq<string>, dicomRoot: string, bidsRoot: string,
                     subject: string, session: string, isDir: string -> bool)
    returns (rows: seq<RowResult>)
    requires |folders| == |modalities|
    ensures |rows| == |folders|
    ensures forall k :: 0 <= k < |folders| ==>
              rows[k] == RowOutcome(folders[k], modalities[k], dicomRoot, bidsRoot, subject, session, isDir)
  {
    rows := [];
    for k := 0 to |folders|
      invariant |rows| == k
      invariant forall j :: 0 <= j < k ==>
                  rows[j] == RowOutcome(folders[j], modalities[j], dicomRoot, bidsRoot, subject, session, isDir)
    {
      rows := rows + [RowOutcome(folders[k], modalities[k], dicomRoot, bidsRoot, subject, session, isDir)];
    }
  }

  /** The button handler: with a field missing no row is processed, otherwise all ten are. */
  method RunConversion(dicomRoot: string, bidsRoot: string, subject: string, session: string,
                       isDir: string -> bool)
    returns (outcome: Outcome)
    ensures outcome.FieldsMissing? <==> !FieldsFilled(dicomRoot, bidsRoot, subject, session)
    ensures outcome.Processed? ==>
              |outcome.rows| == RowCount &&
              forall k :: 0 <= k < RowCount ==>
                outcome.rows[k] == RowOutcome(DicomFolders[k], Modalities[k], dicomRoot, bidsRoot, subject, session, isDir)
  {
    if !FieldsFilled(dicomRoot, bidsRoot, subject, session) {
      return FieldsMissing;
    }
    TableAligned();
    var rows := ProcessRows(DicomFolders, Modalities, dicomRoot, bidsRoot, subject, session, isDir);
    outcome := Processed(rows);
  }
}
