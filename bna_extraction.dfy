/**
 * The Brainnetome atlas extraction (Codes/3_bna_plot_gui_local.py): after checking its
 * three inputs, the script asks `3dmaskave` for the mean of the statistics dataset inside
 * each of the 246 region masks, recording NaN for a missing mask or a failing tool, and
 * labels the eight lobe groups of the bar plot at the middle of their spans.
 *
 * `pathExists` stands for `os.path.exists`, `maskave` for `3dmaskave` (its stdout, or `None`
 * for a `CalledProcessError`) and `parse` for `float()`.
 */
module BnaExtraction {
  import opened Wrappers
  import opened PyText
  import opened PyPath

  const RegionCount: nat := 246

  /** The run starts only when the mask folder exists, the dataset names a sub-brick and the output is a `.txt`. */
  predicate InputsValid(maskDir: string, statsDset: string, outputFile: string, pathExists: string -> bool) {
    pathExists(maskDir) && Contains(statsDset, "[") && Contains(outputFile, ".txt")
  }

  // ------------------------------------------------------------ region masks

  /** `f"extracted_region_{i}.nii"`. */
  function MaskName(i: nat): string {
    "extracted_region_" + Decimal(i) + ".nii"
  }

  /** `os.path.join(mask_dir, f"extracted_region_{i}.nii")`. */
  function MaskPath(maskDir: string, i: nat): string {
    Join(maskDir, MaskName(i))
  }

  /** Each region has its own mask file inside the mask folder. */
  lemma MaskPathInjective(maskDir: string, i: nat, j: nat)
    requires MaskPath(maskDir, i) == MaskPath(maskDir, j)
    ensures i == j
    ensures BaseName(MaskPath(maskDir, i)) == MaskName(i)
  {
    NoSlashInMaskName(i);
    NoSlashInMaskName(j);
    JoinInjective(maskDir, MaskName(i), MaskName(j));
    FrameInjective("extracted_region_", Decimal(i), Decimal(j), ".nii");
    DecimalInjective(i, j);
    BaseNameOfJoin(maskDir, MaskName(i));
  }

  lemma NoSlashInMaskName(i: nat)
    ensures '/' !in MaskName(i)
  {
    var d := Decimal(i);
    forall k | 0 <= k < |d|
      ensures d[k] != '/'
    {
      assert '0' <= d[k] <= '9';
    }
    assert MaskName(i) == "extracted_region_" + (d + ".nii");
  }

  /** `["3dmaskave", "-quiet", "-mask", mask_path, stats_dset]`. */
  function MaskaveArgv(maskPath: string, statsDset: string): seq<string> {
    ["3dmaskave", "-quiet", "-mask", maskPath, statsDset]
  }

  // ---------------------------------------------------------------- entries

  /** A region's mean, or NaN. */
  datatype Mean = NaN | Value(v: real)

  /** One `(Region, MeanValue)` row. */
  datatype Entry = Entry(region: nat, mean: Mean)

  /**
   * What region `i` contributes: NaN for a missing mask or a failing `3dmaskave`, the parsed
   * mean otherwise, and `None` when the tool's answer is not a number, a `ValueError` the
   * script does not catch.
   */
  function RegionMean(i: nat, maskDir: string, statsDset: string, pathExists: string -> bool,
                      maskave: seq<string> -> Option<string>, parse: string -> Option<real>): Option<Mean>
  {
    var maskPath := MaskPath(maskDir, i);
    if !pathExists(maskPath) then Some(NaN)
    else match maskave(MaskaveArgv(maskPath, statsDset))
      case None => Some(NaN)
      case Some(stdout) =>
        match parse(Strip(stdout))
        case None => None
        case Some(v) => Some(Value(v))
  }

  /**
   * A region's mean is NaN exactly when its mask is missing or `3dmaskave` fails, and it is
   * unreadable exactly when the tool answers with something `float()` rejects.
   */
  lemma RegionMeanCases(i: nat, maskDir: string, statsDset: string, pathExists: string -> bool,
                        maskave: seq<string> -> Option<string>, parse: string -> Option<real>)
    ensures var answer := maskave(MaskaveArgv(MaskPath(maskDir, i), statsDset));
            && (RegionMean(i, maskDir, statsDset, pathExists, maskave, parse) == Some(NaN) <==>
                  !pathExists(MaskPath(maskDir, i)) || answer.None?)
            && (RegionMean(i, maskDir, statsDset, pathExists, maskave, parse).None? <==>
                  pathExists(MaskPath(maskDir, i)) && answer.Some? && parse(Strip(answer.value)).None?)
            && (forall v :: RegionMean(i, maskDir, statsDset, pathExists, maskave, parse) == Some(Value(v)) <==>
                  pathExists(MaskPath(maskDir, i)) && answer.Some? && parse(Strip(answer.value)) == Some(v))
  {
  }

  datatype Extraction =
    | Refused
    | MeanUnreadable(region: nat)
    | Extracted(entries: seq<Entry>)

  /** Every region's contribution, as one function of the region number. */
  function Means(maskDir: string, statsDset: string, pathExists: string -> bool,
                 maskave: seq<string> -> Option<string>, parse: string -> Option<real>): nat -> Option<Mean> {
    (i: nat) => RegionMean(i, maskDir, statsDset, pathExists, maskave, parse)
  }

  /** What the loop over regions `1..n` leaves behind: the first unreadable region, or every entry. */
  function ExtractUpTo(n: nat, means: nat -> Option<Mean>): (e: Extraction)
    ensures !e.Refused?
  {
    if n == 0 then Extracted([])
    else match ExtractUpTo(n - 1, means)
      case MeanUnreadable(r) => MeanUnreadable(r)
      case Extracted(entries) =>
        match means(n)
        case None => MeanUnreadable(n)
        case Some(m) => Extracted(entries + [Entry(n, m)])
  }

  /** Without an unreadable mean the entries are regions `1..n` in order, each with its own mean. */
  lemma {:induction false} ExtractedEntries(n: nat, means: nat -> Option<Mean>)
    requires ExtractUpTo(n, means).Extracted?
    ensures var entries := ExtractUpTo(n, means).entries;
            && |entries| == n
            && forall k :: 0 <= k < n ==> entries[k].region == k + 1 && means(k + 1) == Some(entries[k].mean)
  {
    if n > 0 {
      ExtractedEntries(n - 1, means);
    }
  }

  /** An abort names the first region whose mean cannot be read. */
  lemma {:induction false} UnreadableIsFirst(n: nat, means: nat -> Option<Mean>)
    requires ExtractUpTo(n, means).MeanUnreadable?
    ensures var r := ExtractUpTo(n, means).region;
            1 <= r <= n && means(r).None? && forall i :: 1 <= i < r ==> means(i).Some?
  {
    var prev := ExtractUpTo(n - 1, means);
    if prev.MeanUnreadable? {
      UnreadableIsFirst(n - 1, means);
    } else {
      ExtractedEntries(n - 1, means);
      forall i | 1 <= i < n
        ensures means(i).Some?
      {
        assert means(i) == Some(prev.entries[i - 1].mean);
      }
    }
  }

  /** When every region's mean can be read, the loop completes. */
  lemma {:induction false} AllReadableExtracted(n: nat, means: nat -> Option<Mean>)
    requires forall i :: 1 <= i <= n ==> means(i).Some?
    ensures ExtractUpTo(n, means).Extracted?
  {
    if n > 0 {
      AllReadableExtracted(n - 1, means);
    }
  }

  /** Once a region is unreadable, later regions no longer matter. */
  lemma {:induction false} UnreadableStays(n: nat, m: nat, means: nat -> Option<Mean>)
    requires n <= m && ExtractUpTo(n, means).MeanUnreadable?
    ensures ExtractUpTo(m, means) == ExtractUpTo(n, means)
    decreases m - n
  {
    if n < m {
      UnreadableStays(n, m - 1, means);
    }
  }

  /**
   * The button handler up to the CSV: invalid inputs are refused; otherwise regions
   * `1..246` are visited in order, and the first unreadable mean aborts the run.
   */
  method ExtractRegions(maskDir: string, statsDset: string, outputFile: string, pathExists: string -> bool,
                        maskave: seq<string> -> Option<string>, parse: string -> Option<real>)
    returns (outcome: Extraction)
    ensures outcome == if InputsValid(maskDir, statsDset, outputFile, pathExists)
                       then ExtractUpTo(RegionCount, Means(maskDir, statsDset, pathExists, maskave, parse))
                       else Refused
  {
    if !InputsValid(maskDir, statsDset, outputFile, pathExists) {
      return Refused;
    }
    ghost var means := Means(maskDir, statsDset, pathExists, maskave, parse);
    var results: seq<Entry> := [];
    for i := 1 to RegionCount + 1
      invariant ExtractUpTo(i - 1, means) == Extracted(results)
    {
      var mean := RegionMean(i, maskDir, statsDset, pathExists, maskave, parse);
      assert mean == means(i);
      if mean.None? {
        UnreadableStays(i, RegionCount, means);
        return MeanUnreadable(i);
      }
      results := results + [Entry(i, mean.value)];
    }
    outcome := Extracted(results);
  }

  // ------------------------------------------------------------- plot labels

  /** The last region of each lobe group. */
  const BoundaryLines: seq<nat> := [30, 40, 78, 140, 148, 162, 178, 246]

  const RegionNames: seq<string> := [
    "Prefrontal", "Motor", "Cingulate/Parietal",
    "Occipital", "Temp", "Insula",
    "Subcort", "Brainstem & Cerebellum"
  ]

  predicate StrictlyIncreasing(s: seq<nat>) {
    forall i, j :: 0 <= i < j < |s| ==> s[i] < s[j]
  }

  /** One name per group, boundaries in increasing order, the last one closing the atlas. */
  lemma BoundariesOrdered()
    ensures |BoundaryLines| == |RegionNames| == 8
    ensures StrictlyIncreasing(BoundaryLines)
    ensures BoundaryLines[0] > 0 && BoundaryLines[|BoundaryLines| - 1] == RegionCount
  {
  }

  /** The first region index of group `i`'s span, counting the group before it as closed. */
  function SpanStart(boundaries: seq<nat>, i: nat): nat
    requires i < |boundaries|
  {
    if i == 0 then 0 else boundaries[i - 1]
  }

  /** Where group `i`'s label goes: the middle of its span. */
  function LabelCenter(boundaries: seq<nat>, i: nat): real
    requires i < |boundaries|
  {
    (SpanStart(boundaries, i) + boundaries[i]) as real / 2.0
  }

  /** The `enumerate(boundary_lines)` loop computing every group's label position. */
  method LabelCenters(boundaries: seq<nat>) returns (centers: seq<real>)
    ensures |centers| == |boundaries|
    ensures forall i :: 0 <= i < |boundaries| ==> centers[i] == LabelCenter(boundaries, i)
  {
    centers := [];
    for i := 0 to |boundaries|
      invariant |centers| == i
      invariant forall k :: 0 <= k < i ==> centers[k] == LabelCenter(boundaries, k)
    {
      var boundary := boundaries[i];
      var xCenter: real;
      if i == 0 {
        xCenter := boundary as real / 2.0;
      } else {
        xCenter := (boundaries[i - 1] + boundary) as real / 2.0;
      }
      centers := centers + [xCenter];
    }
  }

  /**
   * With boundaries increasing from a positive first one, each label sits strictly inside
   * its group's span, so the labels appear left to right.
   */
  lemma CenterInSpan(boundaries: seq<nat>, i: nat)
    requires StrictlyIncreasing(boundaries) && i < |boundaries| && boundaries[0] > 0
    ensures SpanStart(boundaries, i) as real < LabelCenter(boundaries, i) < boundaries[i] as real
    ensures i + 1 < |boundaries| ==> LabelCenter(boundaries, i) < LabelCenter(boundaries, i + 1)
  {
    if i > 0 {
      assert boundaries[i - 1] < boundaries[i];
    }
    if i + 1 < |boundaries| {
      assert boundaries[i] < boundaries[i + 1];
    }
  }
}
