/**
 * The TMS electric-field simulation front end (Codes/8_EFsimulation.py): check the head
 * model, convert exactly three MNI coordinates with `mni2subject_coords`, read the
 * bracketed answer as numbers, clear the stale results out of the output directory and
 * hand the target to SimNIBS' TMS optimisation.
 *
 * `pathExists` stands for `os.path.exists`, `tool` for the converter (its stdout, or `None`
 * when it raises), `parse` for `float()` and `optimize` for `TMSoptimize.run()` (whether it
 * returns normally).
 */
module EfSimulation {
  import opened Wrappers
  import opened PyText
  import opened PyPath
  import MniToSubject

  /** The data root the script hard-codes. */
  const DataRoot: string := "/Volumes/ExtremeSSD2/LNPI_AUTOMATED"

  /** `os.path.join(PWD, "HeadModels", f"m2m_{subject_id}")`. */
  function M2mPath(subjectId: string): string {
    JoinAll(DataRoot, ["HeadModels", "m2m_" + subjectId])
  }

  /** Every way the button handler can end in an error message. */
  datatype Failure =
    | HeadModelMissing
    | WrongCoordinateCount
    | ConversionFailed
    | UnparsableCoordinate
    | OutputDirectoryMissing
    | OptimizationFailed

  // ---------------------------------------------------- coordinate handling

  /** `result.strip().split('[')[-1].split(']')[0].strip()`. */
  function SubjectCoords(output: string): (r: string)
    ensures '[' !in r && ']' !in r
    ensures IsStripped(r)
  {
    var inner := MniToSubject.Bracketed(Strip(output));
    var r := Strip(inner);
    var a :| Framed(inner, r, a);
    assert forall c :: c in r ==> c in inner by {
      assert inner[a..a + |r|] == r;
    }
    r
  }

  /**
   * A converter answer that reads `... [x y z] ...` once its surrounding whitespace (such as
   * the final newline) is stripped, with nothing bracketed after it, yields `x y z`, trimmed.
   */
  lemma SubjectCoordsOfAnswer(output: string, before: string, inner: string, after: string)
    requires '[' !in inner && ']' !in inner && '[' !in after
    requires Strip(output) == before + "[" + inner + "]" + after
    ensures SubjectCoords(output) == Strip(inner)
  {
    MniToSubject.BracketedGroup(before, inner, after);
  }

  /** The converter's argv, `["mni2subject_coords", "-c", *coords, "-m", m2m_path]`. */
  function ConverterArgv(coords: seq<string>, m2mPath: string): seq<string> {
    ["mni2subject_coords", "-c"] + coords + ["-m", m2mPath]
  }

  /**
   * Everything before the clean-up: a missing head model, a coordinate text that is not
   * exactly three tokens, a failing converter or a non-numeric answer each stop the run;
   * otherwise the answer's tokens, read as numbers, are the target.
   */
  function Prepare(headmodelPath: string, subjectId: string, mniCoords: string, pathExists: string -> bool,
                   tool: seq<string> -> Option<string>, parse: string -> Option<real>): (r: Result<seq<real>, Failure>)
    ensures r == Err(HeadModelMissing) <==> !pathExists(headmodelPath)
    ensures r == Err(WrongCoordinateCount) <==> pathExists(headmodelPath) && |Tokens(mniCoords)| != 3
    ensures r == Err(ConversionFailed) <==>
              pathExists(headmodelPath) && |Tokens(mniCoords)| == 3 &&
              tool(ConverterArgv(Tokens(mniCoords), M2mPath(subjectId))).None?
    ensures r == Err(UnparsableCoordinate) <==>
              pathExists(headmodelPath) && |Tokens(mniCoords)| == 3 &&
              var output := tool(ConverterArgv(Tokens(mniCoords), M2mPath(subjectId)));
              output.Some? && ParseAll(Split(SubjectCoords(output.value)), parse).None?
    ensures r.Err? ==> r.error in {HeadModelMissing, WrongCoordinateCount, ConversionFailed, UnparsableCoordinate}
    ensures r.Ok? ==>
              pathExists(headmodelPath) && |Tokens(mniCoords)| == 3 &&
              var output := tool(ConverterArgv(Tokens(mniCoords), M2mPath(subjectId)));
              output.Some? &&
              var words := Split(SubjectCoords(output.value));
              |r.value| == |words| && forall k :: 0 <= k < |words| ==> parse(words[k]) == Some(r.value[k])
  {
    if !pathExists(headmodelPath) then Err(HeadModelMissing)
    else
      var coords := Tokens(mniCoords);
      if |coords| != 3 then Err(WrongCoordinateCount)
      else match tool(ConverterArgv(coords, M2mPath(subjectId)))
        case None => Err(ConversionFailed)
        case Some(result) =>
          match ParseAll(Split(SubjectCoords(result)), parse)
          case None => Err(UnparsableCoordinate)
          case Some(target) => Ok(target)
  }

  /** The head-model and coordinate-count checks come before the converter is consulted. */
  lemma EarlyFailuresIgnoreTool(headmodelPath: string, subjectId: string, mniCoords: string, pathExists: string -> bool,
                                tool1: seq<string> -> Option<string>, tool2: seq<string> -> Option<string>,
                                parse: string -> Option<real>)
    requires !pathExists(headmodelPath) || |Tokens(mniCoords)| != 3
    ensures Prepare(headmodelPath, subjectId, mniCoords, pathExists, tool1, parse) ==
            Prepare(headmodelPath, subjectId, mniCoords, pathExists, tool2, parse)
    ensures Prepare(headmodelPath, subjectId, mniCoords, pathExists, tool1, parse).Err?
  {
  }

  // ---------------------------------------------------------------- clean-up

  /** The names of earlier simulation results, which the clean-up deletes. */
  predicate IsStale(name: string) {
    StartsWith(name, "simnibs_simulation") || StartsWith(name, "TMSopt_TARGET")
  }

  /** The names that survive the clean-up. */
  function Kept(files: set<string>): (r: set<string>)
    ensures r <= files
    ensures forall f :: f in files ==> (f in r <==> !IsStale(f))
  {
    set f | f in files && !IsStale(f)
  }

  /** The output directory, by the names of the files it holds. */
  class OutputDirectory {
    var present: bool
    var files: set<string>

    constructor (present: bool, files: set<string>)
      ensures this.present == present && this.files == files
    {
      this.present := present;
      this.files := files;
    }

    /** `for fname in os.listdir(output_dir): if stale: os.remove(...)`, one name at a time. */
    method Cleanup()
      requires present
      modifies this
      ensures present
      ensures files == Kept(old(files))
    {
      var listing := files;
      ghost var visited: set<string> := {};
      while listing != {}
        invariant listing + visited == old(files) && listing !! visited
        invariant files == listing + Kept(visited)
        invariant present
        decreases listing
      {
        var fname :| fname in listing;
        CleanupStep(listing, visited, fname);
        if IsStale(fname) {
          files := files - {fname};
        }
        listing := listing - {fname};
        visited := visited + {fname};
      }
    }
  }

  /** Looking at one more name of the listing deletes it exactly when it is stale. */
  lemma CleanupStep(listing: set<string>, visited: set<string>, name: string)
    requires name in listing && listing !! visited
    ensures (if IsStale(name) then (listing + Kept(visited)) - {name} else listing + Kept(visited)) ==
            (listing - {name}) + Kept(visited + {name})
  {
    assert name !in Kept(visited);
  }

  // ---------------------------------------------------------------- results

  /** The three result paths the script reports. */
  datatype Outputs = Outputs(efMap: string, coilInfo: string, gmshFile: string)

  const EfMapName: string := "TMSopt_TARGET.nii.gz"
  const CoilInfoName: string := "TMSopt_TARGET.TMSopt.txt"

  /** The Gmsh mesh of the optimisation, named after the subject and the MagVenture Cool-B65 coil. */
  function MeshName(subjectId: string): string {
    subjectId + "_TMS_optimize_MagVenture_Cool-B65.msh"
  }

  function ResultPaths(outputDir: string, subjectId: string): Outputs {
    Outputs(Join(outputDir, EfMapName), Join(outputDir, CoilInfoName), Join(outputDir, MeshName(subjectId)))
  }

  /** The two fixed result names are distinct plain file names, both of the kind the clean-up deletes. */
  lemma FixedNames()
    ensures '/' !in EfMapName && '/' !in CoilInfoName
    ensures IsStale(EfMapName) && IsStale(CoilInfoName)
    ensures EfMapName != CoilInfoName
  {
    assert EfMapName[..|"TMSopt_TARGET"|] == "TMSopt_TARGET";
    assert CoilInfoName[..|"TMSopt_TARGET"|] == "TMSopt_TARGET";
    assert EfMapName[14] != CoilInfoName[14];
  }

  lemma MeshNameHasNoSlash(subjectId: string)
    requires '/' !in subjectId
    ensures '/' !in MeshName(subjectId)
  {
  }

  /**
   * The field map and the coil information sit directly in the output directory under
   * fixed names that the next run's clean-up deletes; the Gmsh mesh is named after the
   * subject and stays unless that name looks stale too.
   */
  lemma ResultPathsShape(outputDir: string, subjectId: string)
    requires '/' !in subjectId
    ensures var out := ResultPaths(outputDir, subjectId);
            && BaseName(out.efMap) == EfMapName && BaseName(out.coilInfo) == CoilInfoName
            && BaseName(out.gmshFile) == MeshName(subjectId)
            && IsStale(BaseName(out.efMap)) && IsStale(BaseName(out.coilInfo))
            && out.efMap != out.coilInfo
  {
    FixedNames();
    MeshNameHasNoSlash(subjectId);
    BaseNameOfJoin(outputDir, EfMapName);
    BaseNameOfJoin(outputDir, CoilInfoName);
    BaseNameOfJoin(outputDir, MeshName(subjectId));
    if Join(outputDir, EfMapName) == Join(outputDir, CoilInfoName) {
      JoinInjective(outputDir, EfMapName, CoilInfoName);
    }
  }

  // ------------------------------------------------------------------ the run

  /**
   * The button handler. Nothing in the output directory changes unless the target was
   * read; once it was, the stale results are gone whether or not the optimisation then
   * succeeds.
   */
  method Run(dir: OutputDirectory, headmodelPath: string, subjectId: string, mniCoords: string,
             outputDir: string, coilModel: string, pathExists: string -> bool,
             tool: seq<string> -> Option<string>, parse: string -> Option<real>,
             optimize: (string, string, string, seq<real>) -> bool)
    returns (outcome: Result<Outputs, Failure>)
    modifies dir
    ensures Prepare(headmodelPath, subjectId, mniCoords, pathExists, tool, parse).Err? ==>
              outcome == Err(Prepare(headmodelPath, subjectId, mniCoords, pathExists, tool, parse).error) &&
              dir.files == old(dir.files) && dir.present == old(dir.present)
    ensures Prepare(headmodelPath, subjectId, mniCoords, pathExists, tool, parse).Ok? && !old(dir.present) ==>
              outcome == Err(OutputDirectoryMissing) && dir.files == old(dir.files) && !dir.present
    ensures Prepare(headmodelPath, subjectId, mniCoords, pathExists, tool, parse).Ok? && old(dir.present) ==>
              var target := Prepare(headmodelPath, subjectId, mniCoords, pathExists, tool, parse).value;
              && dir.present && dir.files == Kept(old(dir.files))
              && outcome == (if optimize(headmodelPath, outputDir, coilModel, target)
                             then Ok(ResultPaths(outputDir, subjectId)) else Err(OptimizationFailed))
  {
    var prepared := Prepare(headmodelPath, subjectId, mniCoords, pathExists, tool, parse);
    if prepared.Err? {
      return Err(prepared.error);
    }
    if !dir.present {
      return Err(OutputDirectoryMissing);
    }
    dir.Cleanup();
    if optimize(headmodelPath, outputDir, coilModel, prepared.value) {
      outcome := Ok(ResultPaths(outputDir, subjectId));
    } else {
      outcome := Err(OptimizationFailed);
    }
  }
}
