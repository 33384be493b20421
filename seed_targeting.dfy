/**
 * The seed-to-target targeting pipeline (Codes/4_coordinates_MNIspace_ABSval.py):
 * shuffle the seed time series, reduce each permutation trial's dumped
 * correlation values to max |r|, skip unusable trials, take the 95th
 * percentile of the null distribution as the threshold, keep voxels with
 * |a| above it, and report the flipped centre of mass.
 *
 * AFNI's tools are parameters: `engine` gives 3dmaskdump's lines for the
 * correlation map of a shuffled series (3dTcorr1D then 3dmaskdump), and
 * `locate` gives 3dCM's output for a significance mask (3dClusterize then
 * 3dCM). `parse` stands for Python's `float()`.
 */
module SeedTargeting {
  import opened Wrappers
  import opened PyText
  import opened PyPath

  // ---------------------------------------------------------------- inputs

  /** The run starts only when every path field and the output prefix are non-empty. */
  predicate FieldsFilled(tsDset: string, seedMask: string, targetMask: string, outputPrefix: string) {
    tsDset != [] && seedMask != [] && targetMask != [] && outputPrefix != []
  }

  /** The seed series read back from 3dmaskave's output: one number per whitespace token. */
  function ReadSeries(text: string, parse: string -> Option<real>): (r: Option<seq<real>>)
    ensures r.Some? ==> |r.value| == |Tokens(text)|
    ensures r.Some? <==> forall k :: 0 <= k < |Tokens(text)| ==> parse(Tokens(text)[k]).Some?
  {
    ParseAll(Tokens(text), parse)
  }

  // ----------------------------------------------------------- permutation

  /** `perm` is a bijection on `0..n-1`, which is what `np.random.permutation(n)` returns. */
  predicate IsPermutation(perm: seq<nat>, n: nat) {
    && |perm| == n
    && (forall k :: 0 <= k < n ==> perm[k] < n)
    && (forall j, k :: 0 <= j < k < n ==> perm[j] != perm[k])
    && (forall v :: 0 <= v < n ==> v in perm)
  }

  /** `seed_ts_original[perm_indices]`: element `k` of the result is element `perm[k]` of the series. */
  function Shuffle(series: seq<real>, perm: seq<nat>): (r: seq<real>)
    requires IsPermutation(perm, |series|)
    ensures |r| == |series|
    ensures forall k :: 0 <= k < |r| ==> r[k] == series[perm[k]]
  {
    seq(|perm|, k requires 0 <= k < |perm| => series[perm[k]])
  }

  /** Dropping the position that holds `n - 1` from a permutation of `0..n-1` leaves one of `0..n-2`. */
  lemma RemoveLast(perm: seq<nat>, n: nat, j: nat)
    requires n > 0 && IsPermutation(perm, n) && j < n && perm[j] == n - 1
    ensures IsPermutation(perm[..j] + perm[j + 1..], n - 1)
  {
    var perm' := perm[..j] + perm[j + 1..];
    assert forall k :: 0 <= k < n - 1 ==> perm'[k] == (if k < j then perm[k] else perm[k + 1]);
    forall v | 0 <= v < n - 1
      ensures v in perm'
    {
      assert v in perm;
      var k :| 0 <= k < n && perm[k] == v;
      if k < j { assert perm'[k] == v; } else { assert perm'[k - 1] == v; }
    }
  }

  /** Shuffling by `perm` is shuffling the shorter series by the reduced permutation, with the last value put back at `j`. */
  lemma ShuffleSplit(series: seq<real>, perm: seq<nat>, j: nat)
    requires |series| > 0 && IsPermutation(perm, |series|) && j < |series| && perm[j] == |series| - 1
    ensures IsPermutation(perm[..j] + perm[j + 1..], |series| - 1)
    ensures var r' := Shuffle(series[..|series| - 1], perm[..j] + perm[j + 1..]);
            Shuffle(series, perm) == r'[..j] + [series[|series| - 1]] + r'[j..]
  {
    RemoveLast(perm, |series|, j);
  }

  /** The shuffled series holds the same values as the original, each as often. */
  lemma {:induction false} ShufflePreservesMultiset(series: seq<real>, perm: seq<nat>)
    requires IsPermutation(perm, |series|)
    ensures multiset(Shuffle(series, perm)) == multiset(series)
    decreases |series|
  {
    var n := |series|;
    if n > 0 {
      assert n - 1 in perm;
      var j :| 0 <= j < n && perm[j] == n - 1;
      var series', last, perm' := series[..n - 1], series[n - 1], perm[..j] + perm[j + 1..];
      assert IsPermutation(perm', n - 1) by {
        RemoveLast(perm, n, j);
      }
      var r' := Shuffle(series', perm');
      assert multiset(r') == multiset(series') by {
        ShufflePreservesMultiset(series', perm');
      }
      assert multiset(Shuffle(series, perm)) == multiset(series' + [last]) by {
        ShuffleSplit(series, perm, j);
        ReinsertLast(Shuffle(series, perm), r', j, series', last);
      }
      assert series == series' + [last];
    }
  }

  /** Putting `x` back into a rearrangement of `s` rearranges `s + [x]`. */
  lemma ReinsertLast(whole: seq<real>, r: seq<real>, j: nat, s: seq<real>, x: real)
    requires j <= |r| && whole == r[..j] + [x] + r[j..] && multiset(r) == multiset(s)
    ensures multiset(whole) == multiset(s + [x])
  {
    assert r == r[..j] + r[j..];
  }

  // ------------------------------------------------------------ file names

  /** The three files each trial writes. */
  datatype TrialFile = SeriesFile | MapFile | DumpFile

  function NamePrefix(kind: TrialFile): string {
    if kind.SeriesFile? then "perm_ts_" else "perm_corr_"
  }

  function NameSuffix(kind: TrialFile): string {
    match kind
    case SeriesFile => ".1D"
    case MapFile => ".nii.gz"
    case DumpFile => ".txt"
  }

  /** `perm_ts_{i:04d}.1D`, `perm_corr_{i:04d}.nii.gz` and `perm_corr_{i:04d}.txt`. */
  function TrialFileName(kind: TrialFile, i: nat): string {
    NamePrefix(kind) + Pad4(i) + NameSuffix(kind)
  }

  lemma NoSlashInDigits(s: string)
    requires AllDigits(s)
    ensures '/' !in s
  {
    forall k | 0 <= k < |s|
      ensures s[k] != '/'
    {
      assert '0' <= s[k] <= '9';
    }
  }

  lemma NoSlashInName(kind: TrialFile, i: nat)
    ensures '/' !in TrialFileName(kind, i)
  {
    NoSlashInDigits(Pad4(i));
    var name := TrialFileName(kind, i);
    assert name == NamePrefix(kind) + (Pad4(i) + NameSuffix(kind));
  }

  /** Character 5 tells the series file from the maps, the last character tells the three kinds apart. */
  lemma NameMarks(kind: TrialFile, i: nat)
    ensures var name := TrialFileName(kind, i);
            && |name| > 5
            && name[5] == (if kind.SeriesFile? then 't' else 'c')
            && name[|name| - 1] == (match kind case SeriesFile => 'D' case MapFile => 'z' case DumpFile => 't')
  {
    var name := TrialFileName(kind, i);
    assert name == NamePrefix(kind) + (Pad4(i) + NameSuffix(kind));
  }

  /**
   * Trial files inside one output directory never collide: equal paths mean the same kind
   * of file of the same trial.
   */
  lemma TrialPathInjective(outputDir: string, kind1: TrialFile, i: nat, kind2: TrialFile, j: nat)
    requires Join(outputDir, TrialFileName(kind1, i)) == Join(outputDir, TrialFileName(kind2, j))
    ensures kind1 == kind2 && i == j
  {
    NoSlashInName(kind1, i);
    NoSlashInName(kind2, j);
    JoinInjective(outputDir, TrialFileName(kind1, i), TrialFileName(kind2, j));
    NameMarks(kind1, i);
    NameMarks(kind2, j);
    assert kind1 == kind2;
    FrameInjective(NamePrefix(kind1), Pad4(i), Pad4(j), NameSuffix(kind1));
    Pad4Injective(i, j);
  }

  /** With fewer than 10000 trials (the form allows at most 5000) every name has a fixed width. */
  lemma TrialFileNameWidth(kind: TrialFile, i: nat)
    requires i < 10000
    ensures |TrialFileName(kind, i)| == |NamePrefix(kind)| + 4 + |NameSuffix(kind)|
  {
    Pad4Width(i);
  }

  // ------------------------------------------------------- trial statistic

  function Abs(x: real): real {
    if x < 0.0 then -x else x
  }

  /** `max(np.abs(vals))`: the largest magnitude among the values. */
  function MaxAbs(vals: seq<real>): (m: real)
    requires vals != []
    ensures forall k :: 0 <= k < |vals| ==> Abs(vals[k]) <= m
    ensures exists k :: 0 <= k < |vals| && m == Abs(vals[k])
    ensures m >= 0.0
  {
    if |vals| == 1 then Abs(vals[0])
    else
      var rest := MaxAbs(vals[1..]);
      assert forall k :: 1 <= k < |vals| ==> vals[k] == vals[1..][k - 1];
      if Abs(vals[0]) >= rest then Abs(vals[0]) else rest
  }

  /** What one permutation trial contributes; each failure is one of the script's two warnings. */
  datatype TrialOutcome = Accepted(stat: real) | EmptyDump | NonNumericDump

  /**
   * One trial's dump file, read as `[float(line.strip()) for line in f if line.strip()]`:
   * a ValueError on any non-blank line skips the trial, an empty list skips it too,
   * otherwise the trial yields `max(|v|)`.
   */
  function ReadTrial(dump: seq<string>, parse: string -> Option<real>): (t: TrialOutcome)
    ensures t.NonNumericDump? <==>
              exists k :: 0 <= k < |StrippedNonBlank(dump)| && parse(StrippedNonBlank(dump)[k]).None?
    ensures t.EmptyDump? <==> StrippedNonBlank(dump) == []
    ensures t.Accepted? ==> t.stat >= 0.0
    ensures t.Accepted? ==>
              (forall k :: 0 <= k < |StrippedNonBlank(dump)| ==>
                 Abs(parse(StrippedNonBlank(dump)[k]).value) <= t.stat)
              && (exists k :: 0 <= k < |StrippedNonBlank(dump)| &&
                    t.stat == Abs(parse(StrippedNonBlank(dump)[k]).value))
  {
    var lines := StrippedNonBlank(dump);
    match ParseAll(lines, parse)
    case None => NonNumericDump
    case Some(vals) =>
      if vals == [] then EmptyDump
      else
        MaxAbsOfParsed(lines, parse, vals);
        Accepted(MaxAbs(vals))
  }

  /** The largest magnitude among the parsed values is the largest magnitude among the lines' values. */
  lemma MaxAbsOfParsed(lines: seq<string>, parse: string -> Option<real>, vals: seq<real>)
    requires ParseAll(lines, parse) == Some(vals) && vals != []
    ensures forall k :: 0 <= k < |lines| ==> Abs(parse(lines[k]).value) <= MaxAbs(vals)
    ensures exists k :: 0 <= k < |lines| && MaxAbs(vals) == Abs(parse(lines[k]).value)
  {
    assert forall k :: 0 <= k < |lines| ==> parse(lines[k]).value == vals[k];
    var w :| 0 <= w < |vals| && MaxAbs(vals) == Abs(vals[w]);
    assert MaxAbs(vals) == Abs(parse(lines[w]).value);
  }

  /**
   * The skip rule stated on the dump's own lines: a trial is empty exactly when every line is
   * blank, and non-numeric exactly when some non-blank line, stripped, fails `float()`.
   */
  lemma ReadTrialOnDump(dump: seq<string>, parse: string -> Option<real>)
    ensures ReadTrial(dump, parse).EmptyDump? <==> forall i :: 0 <= i < |dump| ==> Strip(dump[i]) == []
    ensures ReadTrial(dump, parse).NonNumericDump? <==>
              exists i :: 0 <= i < |dump| && Strip(dump[i]) != [] && parse(Strip(dump[i])).None?
  {
    var lines := StrippedNonBlank(dump);
    StrippedNonBlankEmpty(dump);
    if ReadTrial(dump, parse).NonNumericDump? {
      var k :| 0 <= k < |lines| && parse(lines[k]).None?;
      StrippedNonBlankSound(dump, k);
      var i :| 0 <= i < |dump| && lines[k] == Strip(dump[i]);
      assert Strip(dump[i]) != [] && parse(Strip(dump[i])).None?;
    }
    if exists i :: 0 <= i < |dump| && Strip(dump[i]) != [] && parse(Strip(dump[i])).None? {
      var i :| 0 <= i < |dump| && Strip(dump[i]) != [] && parse(Strip(dump[i])).None?;
      StrippedNonBlankKeeps(dump);
      assert Strip(dump[i]) in lines;
      var k :| 0 <= k < |lines| && lines[k] == Strip(dump[i]);
      assert parse(lines[k]).None?;
    }
  }

  /** Trial `perm`: shuffle the seed, let the engine produce the dump, read it. */
  function RunTrial(seed: seq<real>, perm: seq<nat>, engine: seq<real> -> seq<string>,
                    parse: string -> Option<real>): TrialOutcome
    requires IsPermutation(perm, |seed|)
  {
    ReadTrial(engine(Shuffle(seed, perm)), parse)
  }

  // --------------------------------------------------- null distribution

  /** The printed warnings: which trial was skipped and why. */
  datatype Warning = EmptyCorrelationFile(trial: nat) | NonNumericValues(trial: nat)

  /** `null_max_r` after the trials `outcomes`: the accepted statistics in trial order. */
  function AcceptedStats(outcomes: seq<TrialOutcome>): (r: seq<real>)
    ensures |r| <= |outcomes|
    ensures forall k :: 0 <= k < |r| ==> Accepted(r[k]) in outcomes
  {
    if outcomes == [] then []
    else
      var n := |outcomes|;
      var prev := AcceptedStats(outcomes[..n - 1]);
      assert forall x :: x in outcomes[..n - 1] ==> x in outcomes;
      if outcomes[n - 1].Accepted? then prev + [outcomes[n - 1].stat] else prev
  }

  /** The warnings printed for the trials `outcomes`, in trial order. */
  function Warnings(outcomes: seq<TrialOutcome>): (r: seq<Warning>)
    ensures |r| <= |outcomes|
    ensures forall k :: 0 <= k < |r| ==> r[k].trial < |outcomes| && !outcomes[r[k].trial].Accepted?
    ensures forall k :: 0 <= k < |r| ==> (r[k].EmptyCorrelationFile? <==> outcomes[r[k].trial].EmptyDump?)
  {
    if outcomes == [] then []
    else
      var n := |outcomes|;
      var prev := Warnings(outcomes[..n - 1]);
      match outcomes[n - 1]
      case Accepted(_) => prev
      case EmptyDump => prev + [EmptyCorrelationFile(n - 1)]
      case NonNumericDump => prev + [NonNumericValues(n - 1)]
  }

  /** Every trial either adds one entry to `null_max_r` or prints one warning. */
  lemma {:induction false} TrialsAccountedFor(outcomes: seq<TrialOutcome>)
    ensures |AcceptedStats(outcomes)| + |Warnings(outcomes)| == |outcomes|
  {
    if outcomes != [] {
      TrialsAccountedFor(outcomes[..|outcomes| - 1]);
    }
  }

  /** Every skipped trial is reported by a warning naming it. */
  lemma {:induction false} SkippedTrialsWarned(outcomes: seq<TrialOutcome>, i: nat)
    requires i < |outcomes| && !outcomes[i].Accepted?
    ensures exists k :: 0 <= k < |Warnings(outcomes)| && Warnings(outcomes)[k].trial == i
  {
    var n := |outcomes|;
    var w := Warnings(outcomes);
    if i == n - 1 {
      assert w[|w| - 1].trial == i;
    } else {
      assert outcomes[..n - 1][i] == outcomes[i];
      SkippedTrialsWarned(outcomes[..n - 1], i);
      var prev := Warnings(outcomes[..n - 1]);
      var k :| 0 <= k < |prev| && prev[k].trial == i;
      assert w[k] == prev[k];
    }
  }

  /** One more trial extends `null_max_r` or the warnings by what it contributes. */
  lemma TrialStep(outcomes: seq<TrialOutcome>, i: nat)
    requires i < |outcomes|
    ensures AcceptedStats(outcomes[..i + 1]) ==
            AcceptedStats(outcomes[..i]) + (if outcomes[i].Accepted? then [outcomes[i].stat] else [])
    ensures Warnings(outcomes[..i + 1]) ==
            Warnings(outcomes[..i]) + match outcomes[i]
                                      case Accepted(_) => []
                                      case EmptyDump => [EmptyCorrelationFile(i)]
                                      case NonNumericDump => [NonNumericValues(i)]
  {
    assert outcomes[..i + 1][..i] == outcomes[..i];
  }

  /** The outcome of every trial of the loop. */
  function TrialOutcomes(seed: seq<real>, perms: seq<seq<nat>>, engine: seq<real> -> seq<string>,
                         parse: string -> Option<real>): (r: seq<TrialOutcome>)
    requires forall i :: 0 <= i < |perms| ==> IsPermutation(perms[i], |seed|)
    ensures |r| == |perms|
    ensures forall i :: 0 <= i < |r| ==> r[i] == RunTrial(seed, perms[i], engine, parse)
  {
    seq(|perms|, i requires 0 <= i < |perms| => RunTrial(seed, perms[i], engine, parse))
  }

  /**
   * The permutation loop: trial `i` uses the permutation `perms[i]`; accepted trials append
   * their statistic to `null_max_r`, skipped ones print a warning and leave it unchanged.
   */
  method BuildNullDistribution(seed: seq<real>, perms: seq<seq<nat>>, engine: seq<real> -> seq<string>,
                               parse: string -> Option<real>)
    returns (nullMaxR: seq<real>, warnings: seq<Warning>)
    requires forall i :: 0 <= i < |perms| ==> IsPermutation(perms[i], |seed|)
    ensures nullMaxR == AcceptedStats(TrialOutcomes(seed, perms, engine, parse))
    ensures warnings == Warnings(TrialOutcomes(seed, perms, engine, parse))
    ensures |nullMaxR| + |warnings| == |perms|
    ensures forall k :: 0 <= k < |nullMaxR| ==> nullMaxR[k] >= 0.0
  {
    ghost var outcomes := TrialOutcomes(seed, perms, engine, parse);
    nullMaxR, warnings := [], [];
    for i := 0 to |perms|
      invariant nullMaxR == AcceptedStats(outcomes[..i])
      invariant warnings == Warnings(outcomes[..i])
    {
      var shuffled := Shuffle(seed, perms[i]);
      var dump := engine(shuffled);
      var outcome := ReadTrial(dump, parse);
      assert outcome == outcomes[i];
      TrialStep(outcomes, i);
      match outcome {
        case Accepted(m) =>
          nullMaxR := nullMaxR + [m];
        case EmptyDump =>
          warnings := warnings + [EmptyCorrelationFile(i)];
        case NonNumericDump =>
          warnings := warnings + [NonNumericValues(i)];
      }
    }
    assert outcomes[..|perms|] == outcomes;
    TrialsAccountedFor(outcomes);
    NullStatsNonNegative(seed, perms, engine, parse);
  }

  /** Every statistic in the null distribution is a magnitude. */
  lemma NullStatsNonNegative(seed: seq<real>, perms: seq<seq<nat>>, engine: seq<real> -> seq<string>,
                             parse: string -> Option<real>)
    requires forall i :: 0 <= i < |perms| ==> IsPermutation(perms[i], |seed|)
    ensures var stats := AcceptedStats(TrialOutcomes(seed, perms, engine, parse));
            forall k :: 0 <= k < |stats| ==> stats[k] >= 0.0
  {
    var outcomes := TrialOutcomes(seed, perms, engine, parse);
    var stats := AcceptedStats(outcomes);
    forall k | 0 <= k < |stats|
      ensures stats[k] >= 0.0
    {
      var j :| 0 <= j < |outcomes| && outcomes[j] == Accepted(stats[k]);
      assert outcomes[j] == RunTrial(seed, perms[j], engine, parse);
    }
  }

  // -------------------------------------------------------------- threshold

  predicate Sorted(s: seq<real>) {
    forall i, j :: 0 <= i < j < |s| ==> s[i] <= s[j]
  }

  function Insert(x: real, s: seq<real>): (r: seq<real>)
    requires Sorted(s)
    ensures Sorted(r)
    ensures multiset(r) == multiset(s) + multiset{x}
  {
    if s == [] then [x]
    else if x <= s[0] then
      ConsSorted(x, s);
      [x] + s
    else
      SortedTail(s);
      var rest := Insert(x, s[1..]);
      InsertedAbove(s, x, rest);
      ConsSorted(s[0], rest);
      MultisetTail(s);
      [s[0]] + rest
  }

  /** A value no larger than a sorted sequence's head can go in front of it. */
  lemma ConsSorted(h: real, t: seq<real>)
    requires Sorted(t) && (t != [] ==> h <= t[0])
    ensures Sorted([h] + t)
  {
    assert forall k :: 0 <= k < |t| ==> t[0] <= t[k];
  }

  /** Putting `x > s[0]` among the rest of a sorted `s` keeps `s[0]` at the front. */
  lemma InsertedAbove(s: seq<real>, x: real, rest: seq<real>)
    requires s != [] && Sorted(s) && s[0] < x && Sorted(rest)
    requires multiset(rest) == multiset(s[1..]) + multiset{x}
    ensures rest != [] ==> s[0] <= rest[0]
  {
    if rest != [] {
      assert rest[0] in multiset(rest);
      if rest[0] != x {
        assert rest[0] in multiset(s[1..]);
        var i :| 0 <= i < |s[1..]| && s[1..][i] == rest[0];
        assert s[0] <= s[i + 1];
      }
    }
  }

  /** The ascending order numpy sorts into before it interpolates. */
  function SortAscending(s: seq<real>): (r: seq<real>)
    ensures Sorted(r)
    ensures multiset(r) == multiset(s)
  {
    if s == [] then []
    else
      assert s == [s[0]] + s[1..];
      Insert(s[0], SortAscending(s[1..]))
  }

  lemma FractionBounds(f: real, d: real)
    requires 0.0 <= f <= 1.0 && d >= 0.0
    ensures 0.0 <= f * d
    ensures f * d <= d
  {
    assert (1.0 - f) * d >= 0.0;
  }

  /** `base` moved by the fraction `f` of a non-negative `step`: never past either end. */
  function Lerp(base: real, step: real, f: real): (r: real)
    requires step >= 0.0 && 0.0 <= f <= 1.0
    ensures base <= r
    ensures r <= base + step
  {
    FractionBounds(f, step);
    base + f * step
  }

  /** A larger fraction never moves less far. */
  lemma LerpMonotone(base: real, step: real, f1: real, f2: real)
    requires step >= 0.0 && 0.0 <= f1 <= f2 <= 1.0
    ensures Lerp(base, step, f1) <= Lerp(base, step, f2)
  {
    FractionBounds(f2 - f1, step);
    assert f2 * step - f1 * step == (f2 - f1) * step;
  }

  lemma MulMonotone(a: real, b: real, c: real)
    requires a <= b && c >= 0.0
    ensures a * c <= b * c
  {
  }

  function VirtualIndex(n: nat, q: real): (h: real)
    requires n > 0 && 0.0 <= q <= 100.0
    ensures 0.0 <= h <= (n - 1) as real
    ensures q == 0.0 || n == 1 ==> h == 0.0
    ensures q == 100.0 ==> h == (n - 1) as real
  {
    var f, span := q / 100.0, (n - 1) as real;
    FractionBounds(f, span);
    assert q == 100.0 ==> f == 1.0;
    assert q == 0.0 ==> f == 0.0;
    assert n == 1 ==> span == 0.0;
    f * span
  }

  lemma VirtualIndexMonotone(n: nat, q1: real, q2: real)
    requires n > 0 && 0.0 <= q1 <= q2 <= 100.0
    ensures VirtualIndex(n, q1) <= VirtualIndex(n, q2)
  {
    MulMonotone(q1 / 100.0, q2 / 100.0, (n - 1) as real);
  }

  function Interpolate(s: seq<real>, h: real): (r: real)
    requires s != [] && Sorted(s) && 0.0 <= h <= (|s| - 1) as real
    ensures 0 <= h.Floor < |s|
    ensures s[h.Floor] <= r
    ensures h.Floor + 1 < |s| ==> r <= s[h.Floor + 1]
    ensures h.Floor + 1 >= |s| ==> r == s[h.Floor]
    ensures h == h.Floor as real ==> r == s[h.Floor]
  {
    var lo := h.Floor;
    assert lo as real <= h < lo as real + 1.0;
    if lo + 1 >= |s| then s[lo]
    else
      var f := h - lo as real;
      assert s[lo] <= s[lo + 1];
      Lerp(s[lo], s[lo + 1] - s[lo], f)
  }

  lemma InterpolateMonotone(s: seq<real>, h1: real, h2: real)
    requires s != [] && Sorted(s) && 0.0 <= h1 <= h2 <= (|s| - 1) as real
    ensures Interpolate(s, h1) <= Interpolate(s, h2)
  {
    var lo1, lo2 := h1.Floor, h2.Floor;
    assert lo1 as real <= h1 < lo1 as real + 1.0;
    assert lo2 as real <= h2 < lo2 as real + 1.0;
    if lo1 < lo2 {
      assert s[lo1 + 1] <= s[lo2];
    } else if lo1 + 1 < |s| {
      assert lo1 == lo2 && s[lo1] <= s[lo1 + 1];
      LerpMonotone(s[lo1], s[lo1 + 1] - s[lo1], h1 - lo1 as real, h2 - lo1 as real);
    }
  }

  function PercentileSorted(s: seq<real>, q: real): (r: real)
    requires s != [] && Sorted(s) && 0.0 <= q <= 100.0
    ensures s[0] <= r <= s[|s| - 1]
    ensures |s| == 1 || q == 0.0 ==> r == s[0]
    ensures q == 100.0 ==> r == s[|s| - 1]
  {
    var h := VirtualIndex(|s|, q);
    var r := Interpolate(s, h);
    assert s[0] <= s[h.Floor];
    assert h.Floor + 1 < |s| ==> s[h.Floor + 1] <= s[|s| - 1];
    r
  }

  lemma PercentileMonotone(s: seq<real>, q1: real, q2: real)
    requires s != [] && Sorted(s) && 0.0 <= q1 <= q2 <= 100.0
    ensures PercentileSorted(s, q1) <= PercentileSorted(s, q2)
  {
    VirtualIndexMonotone(|s|, q1, q2);
    InterpolateMonotone(s, VirtualIndex(|s|, q1), VirtualIndex(|s|, q2));
  }

  lemma SortedHeadLeast(a: seq<real>, x: real)
    requires Sorted(a) && x in multiset(a)
    ensures a[0] <= x
  {
    var i :| 0 <= i < |a| && a[i] == x;
    assert a[0] <= a[i];
  }

  lemma MultisetTail(a: seq<real>)
    requires a != []
    ensures multiset(a[1..]) == multiset(a) - multiset{a[0]}
  {
    assert a == [a[0]] + a[1..];
  }
  lemma SortedTail(a: seq<real>)
    requires a != [] && Sorted(a)
    ensures Sorted(a[1..])
  {
    forall i, j | 0 <= i < j < |a| - 1
      ensures a[1..][i] <= a[1..][j]
    {
      assert a[i + 1] <= a[j + 1];
    }
  }
  lemma SameHead(a: seq<real>, b: seq<real>)
    requires a != [] && Sorted(a) && Sorted(b) && multiset(a) == multiset(b)
    ensures b != [] && a[0] == b[0]
  {
    assert a[0] in multiset(a);
    assert b != [];
    assert b[0] in multiset(b);
    SortedHeadLeast(b, a[0]);
    SortedHeadLeast(a, b[0]);
  }

  lemma {:induction false} SortedUnique(a: seq<real>, b: seq<real>)
    requires Sorted(a) && Sorted(b) && multiset(a) == multiset(b)
    ensures a == b
    decreases |a|
  {
    if a != [] {
      SameHead(a, b);
      MultisetTail(a);
      MultisetTail(b);
      SortedTail(a);
      SortedTail(b);
      SortedUnique(a[1..], b[1..]);
      assert a == [a[0]] + a[1..];
      assert b == [b[0]] + b[1..];
    } else if b != [] {
      SameHead(b, a);
    }
  }

  /**
   * `np.percentile(null_max_r, 95)`, taken only when `null_max_r` is non-empty: it lies
   * between the smallest and the largest entry, is the only entry when there is one,
   * and is non-negative when the entries are.
   */
  function Threshold(nullMaxR: seq<real>): (t: Option<real>)
    ensures t.Some? <==> nullMaxR != []
    ensures t.Some? ==> && (exists i :: 0 <= i < |nullMaxR| && nullMaxR[i] <= t.value)
                        && (exists j :: 0 <= j < |nullMaxR| && t.value <= nullMaxR[j])
    ensures t.Some? && (forall k :: 0 <= k < |nullMaxR| ==> nullMaxR[k] >= 0.0) ==> t.value >= 0.0
    ensures |nullMaxR| == 1 ==> t == Some(nullMaxR[0])
  {
    if nullMaxR == [] then None
    else
      var s := SortAscending(nullMaxR);
      assert |s| == |multiset(s)| == |nullMaxR|;
      assert s[0] in multiset(nullMaxR) && s[|s| - 1] in multiset(nullMaxR);
      assert |nullMaxR| == 1 ==> s == nullMaxR by {
        if |nullMaxR| == 1 {
          assert s[0] in nullMaxR;
        }
      }
      Some(PercentileSorted(s, 95.0))
  }

  /** The threshold depends only on which values were collected, not on the trials' order. */
  lemma ThresholdOrderIndependent(a: seq<real>, b: seq<real>)
    requires multiset(a) == multiset(b)
    ensures Threshold(a) == Threshold(b)
  {
    SortedUnique(SortAscending(a), SortAscending(b));
    if a == [] { assert |b| == |multiset(b)| == 0; }
    if b == [] { assert |a| == |multiset(a)| == 0; }
  }

  // ------------------------------------------------------------ significance

  /** The 3dcalc expression `ispositive(abs(a) - r)` for one voxel value `a`. */
  predicate Significant(a: real, r: real) {
    Abs(a) - r > 0.0
  }

  /** A voxel is significant exactly when it lies beyond the threshold on either side. */
  lemma SignificantTwoSided(a: real, r: real)
    ensures Significant(a, r) <==> (a > r || a < -r)
    ensures Significant(a, r) == Significant(-a, r)
  {
  }

  /** The significance mask of the observed map, voxel by voxel. */
  function SignificanceMask(values: seq<real>, r: real): (m: seq<bool>)
    ensures |m| == |values|
    ensures forall k :: 0 <= k < |m| ==> (m[k] <==> Abs(values[k]) > r)
  {
    seq(|values|, k requires 0 <= k < |values| => Significant(values[k], r))
  }

  /** Raising the threshold only removes voxels from the mask; a zero voxel never enters at r >= 0. */
  lemma MaskShrinks(values: seq<real>, r1: real, r2: real)
    requires r1 <= r2
    ensures forall k :: 0 <= k < |values| && SignificanceMask(values, r2)[k] ==> SignificanceMask(values, r1)[k]
    ensures r1 >= 0.0 ==> forall k :: 0 <= k < |values| && values[k] == 0.0 ==> !SignificanceMask(values, r1)[k]
  {
  }

  // ------------------------------------------------------- centre of mass

  datatype Coord = Coord(x: real, y: real, z: real)

  /** The TMS convention: x and y change sign, z is kept. */
  function Flip(c: Coord): (f: Coord)
    ensures f.x == -c.x && f.y == -c.y && f.z == c.z
  {
    Coord(-c.x, -c.y, c.z)
  }

  lemma FlipInvolution(c: Coord)
    ensures Flip(Flip(c)) == c
  {
  }

  /**
   * 3dCM's output read as `list(map(float, out.strip().split()))`: with every token a number
   * and at least three of them, the first three, flipped; otherwise the warning branch.
   */
  function ReportedTarget(cmOutput: string, parse: string -> Option<real>): (r: Option<Coord>)
    ensures r.Some? <==> |Tokens(cmOutput)| >= 3 &&
                         forall k :: 0 <= k < |Tokens(cmOutput)| ==> parse(Tokens(cmOutput)[k]).Some?
    ensures r.Some? ==>
              var toks := Tokens(cmOutput);
              r.value == Coord(-parse(toks[0]).value, -parse(toks[1]).value, parse(toks[2]).value)
  {
    var toks := Tokens(cmOutput);
    var parsed := ParseAll(toks, parse);
    if parsed.None? || |parsed.value| < 3 then None
    else
      var coords := parsed.value;
      assert Some(coords[0]) == parse(toks[0]) && Some(coords[1]) == parse(toks[1]) && Some(coords[2]) == parse(toks[2]);
      Some(Flip(Coord(coords[0], coords[1], coords[2])))
  }

  // ------------------------------------------------------------ conclusion

  datatype Conclusion =
    | NoUsablePermutations
    | CenterUnparsed(threshold: real, mask: seq<bool>)
    | Target(threshold: real, mask: seq<bool>, coord: Coord)

  /**
   * Everything after the permutation loop: without any accepted trial the error branch is
   * taken and nothing is thresholded; otherwise the observed map is thresholded at the
   * 95th percentile and the located centre of mass is flipped or reported as unparsable.
   */
  function Conclude(nullMaxR: seq<real>, observed: seq<real>, locate: seq<bool> -> string,
                    parse: string -> Option<real>): (c: Conclusion)
    ensures c.NoUsablePermutations? <==> nullMaxR == []
    ensures !c.NoUsablePermutations? ==> Threshold(nullMaxR) == Some(c.threshold)
    ensures !c.NoUsablePermutations? ==>
              |c.mask| == |observed| && forall k :: 0 <= k < |observed| ==> (c.mask[k] <==> Abs(observed[k]) > c.threshold)
    ensures c.Target? ==> ReportedTarget(locate(c.mask), parse) == Some(c.coord)
    ensures c.CenterUnparsed? ==> ReportedTarget(locate(c.mask), parse).None?
  {
    match Threshold(nullMaxR)
    case None => NoUsablePermutations
    case Some(t) =>
      var mask := SignificanceMask(observed, t);
      match ReportedTarget(locate(mask), parse)
      case None => CenterUnparsed(t, mask)
      case Some(c) => Target(t, mask, c)
  }

  datatype Run =
    | FieldsMissing
    | SeedUnreadable
    | Finished(conclusion: Conclusion, warnings: seq<Warning>)

  /**
   * The whole button handler: field check, reading the seed series, `|perms|` permutation
   * trials, and the conclusion. A finished run's threshold is never negative.
   */
  method RunPipeline(tsDset: string, seedMask: string, targetMask: string, outputPrefix: string,
                     seedText: string, perms: seq<seq<nat>>, engine: seq<real> -> seq<string>,
                     observed: seq<real>, locate: seq<bool> -> string, parse: string -> Option<real>)
    returns (run: Run)
    requires forall i :: 0 <= i < |perms| ==> IsPermutation(perms[i], |Tokens(seedText)|)
    ensures run.FieldsMissing? <==> !FieldsFilled(tsDset, seedMask, targetMask, outputPrefix)
    ensures run.SeedUnreadable? <==> FieldsFilled(tsDset, seedMask, targetMask, outputPrefix) &&
                                     ReadSeries(seedText, parse).None?
    ensures run.Finished? ==>
              var seed := ReadSeries(seedText, parse).value;
              var outcomes := TrialOutcomes(seed, perms, engine, parse);
              && run.conclusion == Conclude(AcceptedStats(outcomes), observed, locate, parse)
              && run.warnings == Warnings(outcomes)
    ensures run.Finished? && !run.conclusion.NoUsablePermutations? ==> run.conclusion.threshold >= 0.0
  {
    if !FieldsFilled(tsDset, seedMask, targetMask, outputPrefix) {
      return FieldsMissing;
    }
    var series := ReadSeries(seedText, parse);
    if series.None? {
      return SeedUnreadable;
    }
    var nullMaxR, warnings := BuildNullDistribution(series.value, perms, engine, parse);
    run := Finished(Conclude(nullMaxR, observed, locate, parse), warnings);
  }
}
