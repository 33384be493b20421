# fMRI-guided TMS targeting pipeline: a Dafny model of its glue logic

The repository is a set of Streamlit front ends. Together they take a subject from DICOM
scans to a TMS target:

- convert the DICOM scans to BIDS;
- preprocess them with AFNI;
- extract Brainnetome region means;
- find a seed-to-target connectivity target by a permutation test;
- map MNI coordinates into subject space;
- optimise the coil placement with SimNIBS.

The numerical work is done by external tools: AFNI, dcm2niix, `mni2subject_coords` and
SimNIBS. What the scripts compute themselves is the glue around those tools, and that glue
is what this project models:

- argv and path construction;
- input checks;
- the permutation bookkeeping, the percentile threshold and the significance rule;
- bracket extraction from tool output;
- the per-line and per-region loops with their skip and abort policies;
- the clean-up of old results.

The external tools enter the model in three ways:

- **As parameters from argv to stdout:** `mni2subject_coords` (`tool`, `None` for a non-zero exit) and, in the region extraction, 3dmaskave (`maskave`).
- **As parameters over the modelled data:**
  - `engine` maps a shuffled seed series to the dump of that trial's correlation map, standing for 3dTcorr1D followed by 3dmaskdump;
  - `locate` maps the significance mask to 3dCM's answer, standing for 3dClusterize and 3dCM. The 3dcalc test `ispositive(abs(a)-thr)` that builds the mask is computed by the model itself (SignificanceMask);
  - `optimize` is SimNIBS's run as a success flag.
  
  The argvs of these AFNI calls are not built.
- **As recorded argvs only:** dcm2niix, 3drefit and afni_proc.py are not run; the model records the argv the script passes to them.
- **As plain inputs:** in the targeting script, the seed series text (3dmaskave's output, `seedText`) and the observed correlation map (3dTcorr1D's, `observed`).

Python's `float()` is a parameter too (`parse: string -> Option<real>`, with `None` for a
`ValueError`), and so are the file-system tests (`os.path.isdir`, `isfile`, `exists`) and
each trial's permutation. Each proof holds for every behaviour of those parameters.

Modules:

| module | file | models |
|---|---|---|
| `Wrappers` | wrappers.dfy | `Option` and `Result` |
| `PyText` | pytext.dfy | the Python `str` operations the scripts use: `strip()`, `split()`, `split(c)`, `in`, `startswith`, `str(n)`, `f"{n:04d}"`, list comprehensions of `float()` |
| `PyPath` | pypath.dfy | `os.path.join` on POSIX, and the last path component |
| `SeedTargeting` | seed_targeting.dfy | Codes/4_coordinates_MNIspace_ABSval.py |
| `MniToSubject` | mni_to_subject.dfy | Codes/6_mni_to_subject_gui.py |
| `EfSimulation` | ef_simulation.dfy | Codes/8_EFsimulation.py |
| `DicomToBids` | dicom_to_bids.dfy | Codes/1_dicom_to_bids_gui.py |
| `BnaExtraction` | bna_extraction.dfy | Codes/3_bna_plot_gui_local.py (extraction and label positions) |
| `AfniPreproc` | afni_preproc.dfy | Codes/2_afni_preproc_gui.py |

How each script's state changes is modelled in the script's own form:

- **The permutation loop, the conversion loop, the row loop, the region loop, the label loop and the missing-file loop** are methods with loops. Each is proved against a specification function whose properties are lemmas.
- **The command builder** is a method that appends the word lists in place. Its contract fixes the command's length and the position of every word it takes from the inputs.
- **The output directory of the field simulation** is a class whose `Cleanup` method removes the stale files one name at a time.
- **Everything the scripts compute as a single expression** is a function: bracket extraction, the trial statistic, the percentile, the significance rule, the flip and the names.

Some of the scripts' behaviour is easy to misread; the model keeps it as written:

- The seed series is read without any minimum length.
- A failing AFNI call inside a trial is not itself a skip. `subprocess.run` does not check the exit status, so a trial fails only through the dump it leaves: one that is empty or non-numeric.
- The centre of mass is read from one `3dCM` answer. If it fails to parse, the result is the script's warning branch, not a set of clusters.
- The permutation trials run in sequence. The model proves that the threshold does not depend on their order.

## Model

| member | source | states |
|---|---|---|
| SeedTargeting.ReadSeries | Codes/4_coordinates_MNIspace_ABSval.py:49-50 | the seed series exists exactly when every whitespace token of 3dmaskave's output is a number, with one value per token |
| SeedTargeting.Shuffle | Codes/4_coordinates_MNIspace_ABSval.py:53-54 | `seed_ts_original[perm_indices]` has the series' length and element `k` is element `perm[k]` of the series |
| SeedTargeting.ShufflePreservesMultiset | Codes/4_coordinates_MNIspace_ABSval.py:53-54 | shuffling by a permutation keeps every value, each as often as in the original series |
| SeedTargeting.NameMarks | Codes/4_coordinates_MNIspace_ABSval.py:56-65 | character 5 and the last character of a trial file name identify which of the three files it is |
| SeedTargeting.TrialPathInjective | Codes/4_coordinates_MNIspace_ABSval.py:56-65 | two trial files in the output directory share a path only if they are the same kind of file of the same trial |
| SeedTargeting.TrialFileNameWidth | Codes/4_coordinates_MNIspace_ABSval.py:27-65 | below 10000 trials (the form allows 5000) the trial number in every name is exactly four digits |
| SeedTargeting.MaxAbs | Codes/4_coordinates_MNIspace_ABSval.py:71 | `max(np.abs(vals))` is at least every value's magnitude, equals one of them, and is non-negative |
| SeedTargeting.ReadTrial | Codes/4_coordinates_MNIspace_ABSval.py:67-75 | a trial is non-numeric exactly when some non-blank stripped dump line fails `float()`, and empty exactly when there is no non-blank line; otherwise its statistic is a non-negative maximum magnitude reached by one of the values |
| SeedTargeting.ReadTrialOnDump | Codes/4_coordinates_MNIspace_ABSval.py:67-75 | on the dump's own lines: a trial is empty exactly when every line is blank, and non-numeric exactly when some non-blank line, stripped, fails `float()` |
| SeedTargeting.MaxAbsOfParsed | Codes/4_coordinates_MNIspace_ABSval.py:69-71 | the maximum over the parsed list bounds, and is reached by, the values of the dump's lines |
| SeedTargeting.AcceptedStats | Codes/4_coordinates_MNIspace_ABSval.py:48-71 | `null_max_r` has at most one entry per trial, and each entry is the statistic of an accepted trial |
| SeedTargeting.Warnings | Codes/4_coordinates_MNIspace_ABSval.py:72-75 | each warning names a skipped trial and its reason matches that trial's outcome |
| SeedTargeting.TrialsAccountedFor | Codes/4_coordinates_MNIspace_ABSval.py:52-75 | every trial adds exactly one entry to `null_max_r` or exactly one warning |
| SeedTargeting.SkippedTrialsWarned | Codes/4_coordinates_MNIspace_ABSval.py:67-75 | every skipped trial is named by some warning |
| SeedTargeting.TrialStep | Codes/4_coordinates_MNIspace_ABSval.py:67-75 | one more trial appends its statistic or its warning and changes nothing else |
| SeedTargeting.TrialOutcomes | Codes/4_coordinates_MNIspace_ABSval.py:52-66 | trial `i` reads the dump the engine produces for the series shuffled by `perms[i]` |
| SeedTargeting.BuildNullDistribution | Codes/4_coordinates_MNIspace_ABSval.py:48-75 | the loop leaves `null_max_r` equal to the accepted statistics in trial order and the warnings of the skipped trials; their counts add up to the number of trials and every entry is non-negative |
| SeedTargeting.NullStatsNonNegative | Codes/4_coordinates_MNIspace_ABSval.py:71 | every value in the null distribution is non-negative |
| SeedTargeting.Insert | Codes/4_coordinates_MNIspace_ABSval.py:78 | inserting into a sorted list keeps it sorted and adds exactly the one value |
| SeedTargeting.SortAscending | Codes/4_coordinates_MNIspace_ABSval.py:78 | numpy's sort before interpolation is sorted and a permutation of its input |
| SeedTargeting.SortedUnique | Codes/4_coordinates_MNIspace_ABSval.py:78 | two sorted lists with the same multiset are equal, so the sorted order is unique |
| SeedTargeting.Lerp | Codes/4_coordinates_MNIspace_ABSval.py:78 | linear interpolation by a fraction in [0, 1] stays between its two ends |
| SeedTargeting.LerpMonotone | Codes/4_coordinates_MNIspace_ABSval.py:78 | a larger fraction interpolates no lower |
| SeedTargeting.VirtualIndex | Codes/4_coordinates_MNIspace_ABSval.py:78 | numpy's "linear" index `q/100 * (n-1)` lies in `[0, n-1]`: 0 for q = 0 or one element, and n-1 for q = 100 |
| SeedTargeting.VirtualIndexMonotone | Codes/4_coordinates_MNIspace_ABSval.py:78 | a higher percentile gives a higher virtual index |
| SeedTargeting.Interpolate | Codes/4_coordinates_MNIspace_ABSval.py:78 | the interpolated value lies between the two order statistics around the virtual index, and is the order statistic itself at an integral index |
| SeedTargeting.InterpolateMonotone | Codes/4_coordinates_MNIspace_ABSval.py:78 | interpolation in a sorted list is monotone in the index |
| SeedTargeting.PercentileSorted | Codes/4_coordinates_MNIspace_ABSval.py:78 | the percentile of a sorted list lies between its minimum and maximum; it is the minimum for q = 0 or one element and the maximum for q = 100 |
| SeedTargeting.PercentileMonotone | Codes/4_coordinates_MNIspace_ABSval.py:78 | a higher percentile is never lower |
| SeedTargeting.Threshold | Codes/4_coordinates_MNIspace_ABSval.py:77-78 | a threshold exists exactly when `null_max_r` is non-empty. It lies between two of its entries, is non-negative when they are, and is the sole entry when there is one |
| SeedTargeting.ThresholdOrderIndependent | Codes/4_coordinates_MNIspace_ABSval.py:77-78 | the threshold depends only on the multiset of collected statistics, not on the trial order |
| SeedTargeting.SignificantTwoSided | Codes/4_coordinates_MNIspace_ABSval.py:83 | `ispositive(abs(a) - r)` holds exactly when `a > r` or `a < -r`, and is unchanged by negating `a` |
| SeedTargeting.SignificanceMask | Codes/4_coordinates_MNIspace_ABSval.py:83 | the mask has one entry per voxel, set exactly when the voxel's magnitude strictly exceeds the threshold |
| SeedTargeting.MaskShrinks | Codes/4_coordinates_MNIspace_ABSval.py:83 | raising the threshold only removes voxels, and a zero voxel is never significant at a non-negative threshold |
| SeedTargeting.Flip | Codes/4_coordinates_MNIspace_ABSval.py:97 | x and y change sign, z is kept |
| SeedTargeting.FlipInvolution | Codes/4_coordinates_MNIspace_ABSval.py:97 | flipping twice gives the original coordinate |
| SeedTargeting.ReportedTarget | Codes/4_coordinates_MNIspace_ABSval.py:95-101 | a target is reported exactly when 3dCM's output has at least three tokens, all numbers; it is the flip of the first three |
| SeedTargeting.Conclude | Codes/4_coordinates_MNIspace_ABSval.py:77-103 | with an empty `null_max_r` the error branch is taken and nothing is thresholded. Otherwise the observed map is masked strictly above the 95th-percentile threshold, and the located centre is reported flipped or as unparsable |
| SeedTargeting.RunPipeline | Codes/4_coordinates_MNIspace_ABSval.py:30-105 | an empty field stops the run and an unreadable seed stops it next. A finished run's conclusion and warnings are those of the trials' outcomes, and its threshold is never negative |
| MniToSubject.Bracketed | Codes/6_mni_to_subject_gui.py:29 | `split('[')[-1].split(']')[0]` contains no bracket |
| MniToSubject.BracketedGroup | Codes/6_mni_to_subject_gui.py:29 | for `before[inner]after`, with no bracket in `inner` and no `[` after it, the extraction is `inner` |
| MniToSubject.BracketedWithoutOpen | Codes/6_mni_to_subject_gui.py:29 | without `[` the extraction is the text before the first `]`, or the whole text if it has no `]` |
| MniToSubject.CoordsLines | Codes/6_mni_to_subject_gui.py:23 | each coordinate line is non-empty and stripped |
| MniToSubject.CoordsLinesSound | Codes/6_mni_to_subject_gui.py:23 | every coordinate line is the strip of some line of the stripped text |
| MniToSubject.CoordsLinesComplete | Codes/6_mni_to_subject_gui.py:23 | every non-blank line of the stripped text is kept, stripped |
| MniToSubject.CoordsLinesNonEmpty | Codes/6_mni_to_subject_gui.py:19-23 | text that passes the blank check gives at least one coordinate line |
| MniToSubject.LabelInjective | Codes/6_mni_to_subject_gui.py:30 | `Target_i` and `Target_j` are equal only for `i == j` |
| MniToSubject.Results | Codes/6_mni_to_subject_gui.py:24-32 | there are never more results than coordinate lines |
| MniToSubject.ConvertedPositions | Codes/6_mni_to_subject_gui.py:26-32 | the converted lines' 1-based positions are valid, strictly increasing, and name only lines the tool converts |
| MniToSubject.ConvertedPositionsComplete | Codes/6_mni_to_subject_gui.py:26-32 | every line the tool converts is among those positions |
| MniToSubject.ResultsByPosition | Codes/6_mni_to_subject_gui.py:26-32 | result `k` is the entry of the `k`-th converted line, labelled by that line's own position, so a failure does not renumber later lines |
| MniToSubject.ResultsSound | Codes/6_mni_to_subject_gui.py:26-32 | every result is the entry of some line the tool converted |
| MniToSubject.ResultsComplete | Codes/6_mni_to_subject_gui.py:26-32 | every converted line's entry is among the results |
| MniToSubject.ResultsLabelsDistinct | Codes/6_mni_to_subject_gui.py:26-32 | no two results share a label |
| MniToSubject.ConvertLines | Codes/6_mni_to_subject_gui.py:24-32 | the `enumerate` loop builds exactly those results |
| MniToSubject.Convert | Codes/6_mni_to_subject_gui.py:16-32 | an invalid folder is rejected first, a blank text next, and neither consults the tool. Otherwise the results are those of the coordinate lines |
| EfSimulation.SubjectCoords | Codes/8_EFsimulation.py:41 | the extracted coordinate text has no bracket and no surrounding whitespace |
| EfSimulation.SubjectCoordsOfAnswer | Codes/8_EFsimulation.py:41 | an answer, newline included, that strips to `... [x y z] ...` with nothing bracketed after it gives the coordinate text `x y z`, stripped |
| EfSimulation.Prepare | Codes/8_EFsimulation.py:26-48 | the failure is HeadModelMissing exactly when the head model is absent, WrongCoordinateCount exactly when there are not three tokens, ConversionFailed exactly when the converter fails, and UnparsableCoordinate exactly when some word of its bracketed answer fails `float()`. A target is the converter's bracketed answer read as numbers, one per word |
| EfSimulation.EarlyFailuresIgnoreTool | Codes/8_EFsimulation.py:26-35 | a missing head model or a wrong token count fails whatever the converter would do |
| EfSimulation.Kept | Codes/8_EFsimulation.py:51-53 | a file survives the clean-up exactly when its name starts with neither stale prefix |
| EfSimulation.CleanupStep | Codes/8_EFsimulation.py:51-53 | looking at one more listed name removes it exactly when it is stale |
| EfSimulation.OutputDirectory.Cleanup | Codes/8_EFsimulation.py:51-53 | the directory afterwards holds exactly the kept files of the old listing |
| EfSimulation.FixedNames | Codes/8_EFsimulation.py:52-75 | the field-map and coil-information names are distinct plain names that the clean-up treats as stale |
| EfSimulation.ResultPathsShape | Codes/8_EFsimulation.py:74-76 | the three result paths sit directly in the output directory under their fixed names. The map and the coil information are the stale kind and are distinct |
| EfSimulation.Run | Codes/8_EFsimulation.py:25-95 | a failure before the target is read leaves the directory untouched; a missing output directory fails next. Otherwise the stale files are removed before the optimisation, and the result paths are reported only if it succeeds |
| DicomToBids.TableAligned | Codes/1_dicom_to_bids_gui.py:7-22 | both columns have ten entries and the folder names are distinct |
| DicomToBids.ModalityType | Codes/1_dicom_to_bids_gui.py:40 | `anat` exactly when the modality contains `T1w` or `T2w`, else `func` |
| DicomToBids.OnlyStructuralRowsAreAnat | Codes/1_dicom_to_bids_gui.py:14-40 | in the table only the first two rows go to `anat` |
| DicomToBids.FileName | Codes/1_dicom_to_bids_gui.py:43 | the name is the subject, `_`, the session, `_`, then the modality |
| DicomToBids.OutputDirLayout | Codes/1_dicom_to_bids_gui.py:42 | with plain identifiers the output directory is `bids_root/subject/session/type` |
| DicomToBids.OutputDirType | Codes/1_dicom_to_bids_gui.py:42 | the output directory's last component is the modality type |
| DicomToBids.RowOutcome | Codes/1_dicom_to_bids_gui.py:38-52 | a row is converted exactly when its input folder exists, with the dcm2niix argv of line 47 over its output directory and file name |
| DicomToBids.ProcessRows | Codes/1_dicom_to_bids_gui.py:37-52 | every row is visited in order, and a skipped row does not affect later ones |
| DicomToBids.RunConversion | Codes/1_dicom_to_bids_gui.py:33-52 | an empty field processes no row; otherwise all ten rows of the table are processed |
| BnaExtraction.MaskPathInjective | Codes/3_bna_plot_gui_local.py:31 | each region has its own mask path, whose last component is `extracted_region_<i>.nii` |
| BnaExtraction.RegionMeanCases | Codes/3_bna_plot_gui_local.py:31-43 | a region's mean is NaN exactly when its mask is missing or 3dmaskave fails, and unreadable exactly when `float()` rejects the tool's answer. Otherwise it is the value `float()` reads from the stripped answer |
| BnaExtraction.ExtractUpTo | Codes/3_bna_plot_gui_local.py:30-43 | the region loop ends with an unreadable region or with its entries; refusing the inputs happens only before the loop |
| BnaExtraction.ExtractedEntries | Codes/3_bna_plot_gui_local.py:30-43 | a completed loop over regions 1..n has n entries: entry k is region k+1 with that region's own mean |
| BnaExtraction.UnreadableIsFirst | Codes/3_bna_plot_gui_local.py:38 | an abort names the first region whose mean cannot be read; all earlier ones could |
| BnaExtraction.AllReadableExtracted | Codes/3_bna_plot_gui_local.py:30-43 | when every mean can be read (or is NaN), the loop completes |
| BnaExtraction.UnreadableStays | Codes/3_bna_plot_gui_local.py:38 | once a region is unreadable, later regions do not change the outcome |
| BnaExtraction.ExtractRegions | Codes/3_bna_plot_gui_local.py:24-43 | invalid inputs are refused; otherwise the run is the loop over regions 1..246 |
| BnaExtraction.BoundariesOrdered | Codes/3_bna_plot_gui_local.py:50-53 | eight boundaries and eight names; the boundaries strictly increase, start positive and end at 246 |
| BnaExtraction.LabelCenters | Codes/3_bna_plot_gui_local.py:58-63 | the label loop gives one position per group, at the middle of its span |
| BnaExtraction.CenterInSpan | Codes/3_bna_plot_gui_local.py:58-63 | each label lies strictly inside its group's span, and the labels go left to right |
| AfniPreproc.TaskId | Codes/2_afni_preproc_gui.py:37 | the task id is the subject, `-`, the session, then `_SB` |
| AfniPreproc.EpiFileLayout | Codes/2_afni_preproc_gui.py:38 | with plain identifiers the EPI is `bids/subj/session/func/<subj>_<session>_task-craving_run-01_bold.nii.gz` |
| AfniPreproc.AnatFileLayout | Codes/2_afni_preproc_gui.py:39 | with plain identifiers the T1 is `bids/subj/session/anat/<subj>_<session>_T1w_<echo>.nii.gz` |
| AfniPreproc.NotFiles | Codes/2_afni_preproc_gui.py:45-48 | the missing list holds exactly the checked paths that are not files |
| AfniPreproc.NothingMissing | Codes/2_afni_preproc_gui.py:50-52 | nothing is missing exactly when every checked path is a file |
| AfniPreproc.MissingFiles | Codes/2_afni_preproc_gui.py:45-48 | the loop builds exactly that list |
| AfniPreproc.CommandTailShape | Codes/2_afni_preproc_gui.py:74-94 | the fixed tail has 39 words. The template, the two stimulus files and the two basis words are at their option positions, and it ends with `-remove_preproc_files -execute` |
| AfniPreproc.BuildCommand | Codes/2_afni_preproc_gui.py:62-94 | the command starts `afni_proc.py -subj_id <task> -dsets <epi>`, then the anatomy options and the eight blocks. The three slice-timing words follow only for a non-empty slice-timing file. Both basis words are `BLOCK(d,1)` and the command ends `-remove_preproc_files -execute` |
| AfniPreproc.Run | Codes/2_afni_preproc_gui.py:32-98 | an empty required field (the slice-timing file is optional) stops the run first. Missing files stop it next, reporting exactly those files. Otherwise the template is refitted to MNI and the command runs from `output_dir/<task>` |
| PyText.Strip | Codes/6_mni_to_subject_gui.py:19-23 | `strip()` leaves no whitespace at either end, is empty exactly for all-whitespace text, and removes only surrounding whitespace |
| PyText.StripIdempotent | Codes/6_mni_to_subject_gui.py:23 | stripping twice is stripping once |
| PyText.Split | Codes/8_EFsimulation.py:33 | `split()` gives non-empty words without whitespace |
| PyText.SplitJoinSpaced | Codes/8_EFsimulation.py:33-38 | splitting words joined by single spaces gives the words back |
| PyText.SplitOn | Codes/6_mni_to_subject_gui.py:23-29 | `split(c)` gives at least one piece and no piece contains `c` |
| PyText.SplitOnFirst | Codes/6_mni_to_subject_gui.py:29 | the first piece is the text before the first separator, or all of it |
| PyText.JoinSplitOn | Codes/6_mni_to_subject_gui.py:23 | joining the pieces with the separator gives the text back |
| PyText.SplitJoinOn | Codes/6_mni_to_subject_gui.py:23 | pieces without the separator survive a join followed by a split |
| PyText.SplitOnNoSep | Codes/6_mni_to_subject_gui.py:29 | text without the separator is a single piece |
| PyText.SplitOnConcat | Codes/6_mni_to_subject_gui.py:29 | a separator splits the text into the pieces before it and the pieces after it |
| PyText.Contains | Codes/1_dicom_to_bids_gui.py:40 | `sub in s` holds exactly when `sub` occurs at some position of `s` |
| PyText.Decimal | Codes/6_mni_to_subject_gui.py:30 | `str(n)` is a non-empty string of digits whose first digit is `0` only for `n == 0` |
| PyText.DecimalValue | Codes/3_bna_plot_gui_local.py:31 | reading `str(n)` back gives `n` |
| PyText.DecimalInjective | Codes/3_bna_plot_gui_local.py:31 | distinct numbers have distinct decimal forms |
| PyText.DecimalLength | Codes/4_coordinates_MNIspace_ABSval.py:56 | below 10, 100, 1000 and 10000, `str(n)` has at most 1, 2, 3 and 4 digits |
| PyText.Pad4 | Codes/4_coordinates_MNIspace_ABSval.py:56 | `f"{n:04d}"` is all digits and at least four wide |
| PyText.Pad4Value | Codes/4_coordinates_MNIspace_ABSval.py:56 | reading back `f"{n:04d}"` gives `n` |
| PyText.Pad4Width | Codes/4_coordinates_MNIspace_ABSval.py:56 | below 10000 the padded form is exactly four digits |
| PyText.Pad4Injective | Codes/4_coordinates_MNIspace_ABSval.py:56-65 | distinct trial numbers give distinct padded forms |
| PyText.StrippedNonBlank | Codes/4_coordinates_MNIspace_ABSval.py:69 | the comprehension keeps no more lines than it is given, each non-empty and stripped |
| PyText.StrippedNonBlankConcat | Codes/6_mni_to_subject_gui.py:23 | the comprehension distributes over concatenation, so it keeps the lines' order |
| PyText.StrippedNonBlankKeeps | Codes/6_mni_to_subject_gui.py:23 | every non-blank line is kept, stripped |
| PyText.StrippedNonBlankOne | Codes/6_mni_to_subject_gui.py:23 | a blank line contributes nothing and a non-blank one its strip; with StrippedNonBlankConcat this fixes the whole result |
| PyText.StrippedNonBlankSound | Codes/4_coordinates_MNIspace_ABSval.py:69 | every kept entry is the strip of some input line |
| PyText.StrippedNonBlankEmpty | Codes/4_coordinates_MNIspace_ABSval.py:69-73 | nothing is kept exactly when every line is blank |
| PyText.ParseAll | Codes/8_EFsimulation.py:48 | `[float(v) for v in tokens]` succeeds exactly when every token parses, with one value per token in order |
| PyPath.Join | Codes/8_EFsimulation.py:74 | `os.path.join(a, b)` ends with `b` and, for a relative `b`, starts with `a` |
| PyPath.BaseName | Codes/8_EFsimulation.py:74-76 | the last component of a path contains no `/` |
| PyPath.BaseNameOfJoin | Codes/8_EFsimulation.py:74-76 | joining a plain name onto a directory keeps that name as the last component |
| PyPath.JoinInjective | Codes/4_coordinates_MNIspace_ABSval.py:56-65 | distinct plain names give distinct paths in one directory |
| PyPath.JoinAllPlain | Codes/1_dicom_to_bids_gui.py:42 | relative components that neither start nor end with `/` are joined with exactly one `/` between them |

## Left out

- The external tools' own work is not modelled. This covers the correlation maps, the clustering (NN=1, at least 5 voxels), the centre of mass, the DICOM conversion, the preprocessing and the field optimisation. No algorithm for them appears in the scripts. The argvs of 3dmaskave, 3dTcorr1D, 3dmaskdump, 3dcalc, 3dClusterize and 3dCM in Codes/4_coordinates_MNIspace_ABSval.py are not built. There 3dmaskave's and the observed 3dTcorr1D's outputs are plain inputs. The per-trial 3dTcorr1D and 3dmaskdump appear through `engine`, and 3dClusterize and 3dCM appear through `locate`.
- MniToSubject.ConvertLines: the tool's `None` stands only for a non-zero exit, the `CalledProcessError` the script catches. An `OSError` for a missing executable, or a `UnicodeDecodeError` from `text=True`, is not caught by the script and aborts the run. The model does not represent that abort.
- BnaExtraction.ExtractRegions: `maskave`'s `None` stands only for a non-zero exit, the `CalledProcessError` that becomes NaN. An `OSError` or a `UnicodeDecodeError` aborts the script and is not represented.
- `np.random.permutation` is not modelled as a random draw: each trial's permutation is an input required to be a bijection on the indices.
- Floating point is modelled as mathematical reals. Left out: `float()` parsing, the `:.6f` series file, the `:.4f` threshold passed to 3dcalc (so the real mask threshold is a rounded one), the `:.2f` display, NaN arithmetic and IEEE rounding.
- File-system effects are not modelled. These are `makedirs`, `chdir`, and writing the `.1D`, dump and CSV files. What is read back from them is an input.
- Streamlit widgets and messages, tqdm progress, the bar plot and its y-limits are left out. So are Codes/5_MeshGeneration_SimNIBS.py, Codes/7_ContrastVisualizatoin.py and app_launcher.py, which are UI and process launching only.
- The hard-coded `PWD` base paths are configuration. Only the one in Codes/8_EFsimulation.py enters a modelled value (the m2m path).
- EfSimulation.Run: the SimNIBS run is a boolean parameter. Its options (`ADM`, target size, search radius and so on) and the Gmsh viewer are not modelled, and neither are the reading and display of the coil-information file.
- EfSimulation.Run: the files the optimisation writes into the output directory are not added to `dir.files`. These are the field map, the coil information and the mesh named by ResultPaths. On success the contract states only the clean-up's effect.
- EfSimulation.Run: the handler catches every `Exception`. The model covers the failures the script itself provokes or that come from the tools it calls, and not arbitrary runtime errors. A missing output directory is modelled as the error `os.listdir` raises.
- EfSimulation.OutputDirectory.Cleanup: the directory is a set of names. Files are removed by name, and the model does not prove anything about aliasing between the output directory and other paths.
- AfniPreproc.Run: 3drefit's and afni_proc.py's exit status and output are not examined by the script, and they are not modelled. The `except Exception` around the body covers only errors from failing calls, which the model does not raise.
- AfniPreproc.Run: the anatomical echo is free text. In the form it is one of `e1`..`e4`. The block duration is a `nat`; in the form it is at least 1.
- AfniPreproc.NotFiles: the contract states which paths are missing, not that they keep the checking order. The order follows from MissingFiles's loop, which appends in order.
- SeedTargeting.RunPipeline: a `ValueError` while reading the seed series is not caught by the script. The model reports it as SeedUnreadable instead of an uncaught exception.
- BnaExtraction.ExtractRegions: a `ValueError` from `float()` on 3dmaskave's output is not caught by the script, and the run aborts. The model reports it as MeanUnreadable at the first such region. Writing the CSV and plotting are not modelled.
- BnaExtraction.RegionMean has no contract of its own. All three of its cases, NaN, unreadable and the parsed value, are stated by RegionMeanCases, and the loop's properties are stated over any per-region function.
