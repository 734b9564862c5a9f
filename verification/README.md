# IonBetaCorrelation core, modelled in Dafny

IonBetaCorrelation correlates ion implants in a double-sided silicon strip
detector (DSSD) with later beta decays and delayed germanium gammas. This
project models the building blocks of that analysis that have bodies in the
C++ code:

- **`ClusterGeometry`** (`cluster_geometry.dfy`): the cluster predicates of
  `src/utils.cxx`. These are:
  - half-open strip masking against a noisy-strip list;
  - one-axis range overlap, with a strict or an adjacency-tolerant mode;
  - two-axis cluster overlap;
  - centroid proximity.
- **`TimeRangeManager`** (`time_range_manager.dfy`): the deadtime
  exclusion-window index. It is an append-only list of closed time windows,
  each centred on a detector position, sharing one position tolerance.
- **`TimeIndex`** (`time_index.dfy`): the `std::multimap<ULong64_t, …>` used
  for every event map.
  - It is a sequence of `(time, record)` entries sorted by time.
  - `Emplace` inserts at the upper end of the key's equal range, so equal
    timestamps keep insertion order.
- **`TreeManager`** (`tree_manager.dfy`): the admission cuts and map filling
  of `TreeManager::FillMaps`.
  - The tree readers become input sequences of rows.
  - The cut thresholds become a `Cuts` parameter.
  - `FillMaps` builds the gated-implant map as the code does: its admission
    test reads the values the implant reader's branches still hold after the
    implant loop. These values are the `implantReaderRow` parameter.
    `FillMapsIntended` is the same fill with the gated rows judged by their own
    fields (see Findings).
- **`Correlation`** (`correlation.dfy`): three pieces.
  - The beta-candidate record, with its delayed-gamma tag and the gamma query
    against a `std::set<double>` of known lines. The set is a strictly
    increasing `seq<real>` with literal `lower_bound`/`upper_bound`.
  - The correlation record types.
  - The correlation manager's construction.
- **`ArgumentParser`** (`argument_parser.dfy`): the command-line parser.
  - It keeps a flag registry, a short-to-long alias map, parsed values,
    positional arguments and parse errors.
  - Parsing is a token-by-token step function (`ParseToken`), iterated by
    `ParseFrom`.
  - The singleton is an ordinary value that every operation takes and returns.
- **`Wrappers`** (`wrappers.dfy`): the `Option` type.

### Modelling choices

- **Integers.**
  - Timestamps (`ULong64_t`) are `nat`.
  - Strip indices and other `Int_t` fields are `int`.
  - Positions and energies (`Double_t`) are `real`.
  - The `(Long64_t)` conversion of the decay x/y energies truncates toward
    zero (`TreeManager.TruncToLong`).
- **Cluster types.** The header and the code disagree about them:
  - `ClusterRange` declares only `min`/`max` (`include/utils.hh:11`), yet
    `AreCentroidsCorrelated1D` reads `.centroid` (`src/utils.cxx:52`).
  - The code passes an `XYPair`, but the header declares `std::pair`
    (`include/utils.hh:21`).
  - The model follows the code: `ClusterRange(min, max, centroid)` with an
    integer centroid, and `XYPair(x, y)`.
- **Delayed gamma.** The gamma match is an `Option<real>`. The source keeps a
  flag plus an energy that has no meaning until the flag is set.
- **Leading dashes.** The comment on `normalizeFlagName` promises
  lower-casing, but the code only strips leading dashes. The model follows the
  code, and `ArgumentParser.NormalizeKeepsCase` pins this down.
- **Tokens are characters.** A C++ `std::string` is a sequence of bytes.
  The model's tokens are sequences of characters. The two agree on ASCII
  command lines; see "Left out" for non-ASCII tokens.
- **Empty tokens.** An empty `argv` token is allowed.
  - `arg[0]` on an empty `std::string` reads the terminating `'\0'`, so the
    token is not a flag and is stored as positional.
  - An empty token after a value flag is likewise taken as the value.
  - `ArgumentParser.StartsWithDash` models this.

## Model

| member | source | states |
|---|---|---|
| `ClusterGeometry.IsStripOverlaping` | src/utils.cxx:9-11 | a strip is masked by a cluster when it lies in the half-open range [min, max); `StripMaskIsHalfOpen` pins the bounds |
| `ClusterGeometry.IsNoisyStrip` | src/utils.cxx:13-33 | the cluster is noisy exactly when some listed strip lies in its half-open range; the early `break` does not change the answer |
| `ClusterGeometry.StripMaskIsHalfOpen` | src/utils.cxx:9-11 | a strip is masked iff min <= strip < max; the range's max is never masked and an empty range masks nothing |
| `ClusterGeometry.EmptyMaskNeverNoisy` | src/utils.cxx:17-20 | an empty noisy-strip list never marks a cluster noisy |
| `ClusterGeometry.NoisyStripDependsOnlyOnListedStrips` | src/utils.cxx:22-28 | two lists holding the same strips, in any order and with any repetition, give the same verdict |
| `ClusterGeometry.BrokenStripsMaskCoveringClusters` | include/GlobalConstants.hh:21-22 | with the configured decay broken-strip lists, a cluster covering x strip 63 and a cluster on y strip 127 are masked |
| `ClusterGeometry.BrokenStripsSkipClustersEndingAtThem` | include/GlobalConstants.hh:21-22 | with the same lists, clusters whose excluded max sits on a broken strip are not masked |
| `ClusterGeometry.IsOverlapping1D` | src/utils.cxx:35-40 | one-axis overlap: with adjacency allowed the ranges may touch (>=), without it they must cross (>); its meaning as a shared strip is `StrictOverlapIffSharedStrip` and `AdjacentOverlapIffSharedClosedStrip` |
| `ClusterGeometry.Overlap1DSymmetric` | src/utils.cxx:35-40 | one-axis overlap does not depend on argument order, in either mode |
| `ClusterGeometry.StrictOverlapImpliesAdjacentOverlap` | src/utils.cxx:37-38 | allowing adjacency only adds overlaps |
| `ClusterGeometry.AdjacencyToggle1D` | src/utils.cxx:37-38 | ranges that only touch (a.max == b.min) overlap with adjacency allowed and not without |
| `ClusterGeometry.StrictOverlapIffSharedStrip` | src/utils.cxx:38 | for non-empty ranges, strict overlap holds iff the two half-open ranges share a strip |
| `ClusterGeometry.AdjacentOverlapIffSharedClosedStrip` | src/utils.cxx:37 | for well-formed ranges, adjacency-tolerant overlap holds iff the closed ranges share a strip |
| `ClusterGeometry.DegenerateRangeOverlap` | src/utils.cxx:9-38 | a range with min == max masks no strip, yet strictly overlaps a range around it |
| `ClusterGeometry.AreClustersOverlapping` | src/utils.cxx:42-45 | two clusters overlap when they overlap on both axes under the same adjacency policy; `StrictClusterOverlapIffSharedPixel` gives its meaning |
| `ClusterGeometry.ClusterOverlapSymmetric` | src/utils.cxx:42-45 | two-axis overlap does not depend on argument order |
| `ClusterGeometry.ClusterAdjacencyToggle` | src/utils.cxx:42-45 | clusters touching on x and overlapping on y overlap only when adjacency is allowed |
| `ClusterGeometry.StrictClusterOverlapIffSharedPixel` | src/utils.cxx:42-45 | for non-empty clusters, strict overlap holds iff they share a pixel (an x strip and a y strip) |
| `ClusterGeometry.AreCentroidsCorrelated1D` | src/utils.cxx:51-53 | two ranges are correlated when their centroids differ by at most the threshold |
| `ClusterGeometry.AreCentroidsCorrelated` | src/utils.cxx:47-49 | two clusters are correlated when both axes are; `CentroidsCorrelatedMeaning` restates it as an interval on each axis |
| `ClusterGeometry.CentroidsCorrelatedMeaning` | src/utils.cxx:47-53 | clusters are correlated iff both centroid differences lie in [-t, t] |
| `ClusterGeometry.CentroidsCorrelatedSymmetric` | src/utils.cxx:47-53 | centroid correlation does not depend on argument order |
| `ClusterGeometry.CentroidsCorrelatedMonotone` | src/utils.cxx:51-53 | raising the threshold keeps correlated pairs correlated |
| `ClusterGeometry.CentroidsSelfCorrelated` | src/utils.cxx:51-53 | a cluster is correlated with itself iff the threshold is not negative |
| `TimeRangeManager.TimeRange.Contains` | src/TimeRangeManager.cxx:7-9 | a window contains a point inside its closed time interval and within the tolerance of its centroid on both axes; `WindowBoundsInclusive` pins the bounds |
| `TimeRangeManager.TimeRange.Less` | src/TimeRangeManager.cxx:11-13 | windows are ordered by start time alone; `LessIsStrictOrderOnStart` shows it is a strict order |
| `TimeRangeManager.Manager.GetRanges` | src/TimeRangeManager.cxx:34-36 | the stored windows in insertion order; `BuildManagerRanges` states what they are after a run of insertions |
| `TimeRangeManager.Manager.Contains` | src/TimeRangeManager.cxx:27-32 | the linear scan answers true iff some stored window contains the point under the shared tolerance |
| `TimeRangeManager.NewManager` | src/TimeRangeManager.cxx:17-19 | a new manager keeps the given tolerance, holds no window and is valid |
| `TimeRangeManager.AddRange` | src/TimeRangeManager.cxx:21-24 | exactly one window is appended, earlier windows and the tolerance are unchanged, reversed bounds are swapped, and every window stays ordered |
| `TimeRangeManager.WindowBoundsInclusive` | src/TimeRangeManager.cxx:7-9 | a window contains its own start and end time at its centre, and never the time after its end |
| `TimeRangeManager.LessIsStrictOrderOnStart` | src/TimeRangeManager.cxx:11-13 | window order is irreflexive, asymmetric and transitive, and windows with equal starts are incomparable |
| `TimeRangeManager.EmptyManagerCoversNothing` | src/TimeRangeManager.cxx:27-32 | a manager without windows vetoes no point |
| `TimeRangeManager.AddRangeCovers` | src/TimeRangeManager.cxx:21-32 | after an insertion a point is vetoed iff it was vetoed before or the new normalised window contains it |
| `TimeRangeManager.CoverageMonotone` | src/TimeRangeManager.cxx:21-32 | a vetoed point stays vetoed after any insertion |
| `TimeRangeManager.AddRangeIgnoresBoundOrder` | src/TimeRangeManager.cxx:21-24 | inserting (s, e) and (e, s) give the same manager |
| `TimeRangeManager.BuildManagerRanges` | src/TimeRangeManager.cxx:17-24 | after a sequence of insertions the manager holds one ordered window per request, in request order, under the constructor's tolerance |
| `TimeRangeManager.DeadtimeVetoExample` | src/TimeRangeManager.cxx:7-32 | a window [1050, 1150] at (10, 10) with tolerance 5 vetoes t = 1120 inside the box, and not t = 1151 or x = 16 |
| `TimeIndex.UpperBound` | src/TreeManager.cxx:104 | the insertion point of `emplace`: every entry before it has a key at most the new key and, in a sorted map, every entry from it on has a larger key |
| `TimeIndex.Emplace` | src/TreeManager.cxx:104 | insertion adds exactly the new entry, keeps the keys sorted, and appends it behind every entry with the same key while leaving other keys' entries alone |
| `TimeIndex.BuildIndex` | src/TreeManager.cxx:96-107 | emplacing entries one by one yields a sorted map holding exactly those entries, with equal keys in input order |
| `TimeIndex.StableIndexIsUnique` | src/TreeManager.cxx:96-107 | sortedness plus per-key order determine the map completely, so the map's iteration order is fixed by the input order |
| `TimeIndex.BuildIndexOfSortedIsIdentity` | src/TreeManager.cxx:96-107 | entries that arrive already in time order are stored exactly as they arrived |
| `TreeManager.TruncToLong` | src/TreeManager.cxx:125 | the cast to a 64-bit integer truncates toward zero: the result is within one unit below the value's magnitude and has its sign |
| `TreeManager.TimeSkew` | src/TreeManager.cxx:97 | the signed difference of the x and y timestamps, taken after the casts to a signed 64-bit integer |
| `TreeManager.ImplantPassesCuts` | src/TreeManager.cxx:97 | an implant row is admitted on the configured detector with an absolute x/y timing skew strictly below the cut; `AdmissionCutsAreStrict` and `ImplantAdmissionIgnoresEnergyAndPosition` pin it down |
| `TreeManager.DecayPassesCuts` | src/TreeManager.cxx:125 | a decay row is admitted on the configured detector with timing skew and truncated x/y energy difference strictly below their cuts and energy strictly inside the window |
| `TreeManager.GermaniumPassesCuts` | src/TreeManager.cxx:139 | a germanium row is admitted when its energy is strictly above the threshold; `GermaniumAdmissionIsEnergyOnly` shows nothing else matters |
| `TreeManager.ImplantReaderAdmit` | src/TreeManager.cxx:110-111 | the gated loop's test: every gated row gets the verdict of the implant reader's values |
| `TreeManager.ToEvent` | src/TreeManager.cxx:99-102 | the stored record copies every branch, with cluster bounds in the order min x, max x, min y, max y |
| `TreeManager.ToGermaniumEvent` | src/TreeManager.cxx:141 | the stored germanium record copies time, energy and spill |
| `TreeManager.Admitted` | src/TreeManager.cxx:96-107 | the selected entries are exactly those of the rows that pass the test: every admitted row contributes, nothing else does |
| `TreeManager.AdmittedSnoc` | src/TreeManager.cxx:96-107 | the reading loop: the row read last adds one entry at the end exactly when it passes the test, so admitted entries keep reading order and multiplicity |
| `TreeManager.FillImplantMap` | src/TreeManager.cxx:96-107 | the implant map is the stable time index of the admitted rows, each keyed by its own time and copied from an admitted row |
| `TreeManager.FillGatedImplantMapAsWritten` | src/TreeManager.cxx:110-121 | as written, the gated map indexes the gated rows admitted by a test on the implant reader's values |
| `TreeManager.FillGatedImplantMap` | src/TreeManager.cxx:110-121 | the gated map indexes the gated rows that pass the implant cuts on their own fields, each keyed by its own time |
| `TreeManager.FillDecayMap` | src/TreeManager.cxx:124-135 | the decay map is the stable time index of the rows passing all decay cuts, each keyed by its own time |
| `TreeManager.FillGermaniumMap` | src/TreeManager.cxx:138-146 | the germanium map is the stable time index of the rows above the energy threshold, each keyed by its own time |
| `TreeManager.FillMaps` | src/TreeManager.cxx:93-149 | each of the four maps is the stable time index of its tree's admitted rows, keyed by each record's own time; the gated map's admission test is the one on the implant reader's values |
| `TreeManager.FillMapsIntended` | src/TreeManager.cxx:93-149 | the same fill with each gated row admitted on its own fields, so every stored gated record comes from a gated row that passes the implant cuts |
| `TreeManager.AdmissionCutsAreStrict` | src/TreeManager.cxx:97-139 | a timing skew equal to the cut, or an energy equal to a window bound or threshold, is rejected |
| `TreeManager.DecayEnergyDifferenceTruncates` | src/TreeManager.cxx:125 | the energy-difference cut compares truncated energies (10.9 and 10.1 compare equal; 11.0 and 10.9 differ by one) |
| `TreeManager.ImplantAdmissionIgnoresEnergyAndPosition` | src/TreeManager.cxx:97 | implant admission does not depend on energy, position or spill |
| `TreeManager.GermaniumAdmissionIsEnergyOnly` | src/TreeManager.cxx:139-143 | germanium admission does not depend on time or spill |
| `TreeManager.GatedAdmissionIgnoresGatedRows` | src/TreeManager.cxx:110-121 | as written, the gated map holds every gated row or none, according to the implant reader's values alone |
| `TreeManager.GatedAdmissionCounterexample` | src/TreeManager.cxx:111 | a gated row on the wrong detector with a huge timing skew is stored as written and rejected by the corrected map |
| `TreeManager.FillMapsGatedCounterexample` | src/TreeManager.cxx:110-121 | when the implant reader's values fail the cuts, a gated row that passes them on its own is dropped as written and stored by the intended fill |
| `TreeManager.SortedImplantRowsStoredInOrder` | src/TreeManager.cxx:99-104 | admitted rows already in time order are stored one for one, in reading order, with cluster bounds placed as min x, max x, min y, max y |
| `Correlation.BetaCandidateEvent.SetGammaParameters` | src/CorrelationManager.cxx:5-8 | setting a gamma marks the candidate matched with that energy and changes nothing else |
| `Correlation.BetaCandidateEvent.HasMatchedGammaInRange` | src/CorrelationManager.cxx:10-13 | as written, the query is true iff a gamma was set and energy minus range is itself a known line |
| `Correlation.BetaCandidateEvent.HasMatchedGammaInBand` | src/CorrelationManager.cxx:10-13 | the corrected query is true iff a gamma was set and some known line lies within the range of its energy |
| `Correlation.LowerBound` | src/CorrelationManager.cxx:12 | `lower_bound` of an ordered set: every element before the position is below the key, none from it on |
| `Correlation.UpperBound` | src/CorrelationManager.cxx:12 | `upper_bound` of an ordered set: every element before the position is at most the key, every one from it on is above |
| `Correlation.NewBetaCandidate` | include/CorrelationManager.hh:27-52 | a new candidate has no gamma match, so the gamma query is false for every known set and range |
| `Correlation.NewCorrelationManager` | src/CorrelationManager.cxx:17-28 | construction records the four event maps; no deadtime window exists and no implant is correlated |
| `Correlation.SetGammaLastWriteWins` | src/CorrelationManager.cxx:5-8 | a second gamma overwrites the first and the match stays set |
| `Correlation.NoGammaNoMatch` | src/CorrelationManager.cxx:11 | without a gamma both queries are false for every set and range |
| `Correlation.GammaRangeQueryUsesOneKey` | src/CorrelationManager.cxx:12 | with known line 100 and range 1: energy 100.5 misses as written but hits the band, 100 misses, and 101 hits |
| `Correlation.AsWrittenHitIsBandHit` | src/CorrelationManager.cxx:10-13 | with a non-negative range, every hit of the written query is a hit of the band query |
| `ArgumentParser.NormalizeFlagName` | src/ArgumentParser.cxx:16-23 | the normalised name never starts with a dash and is unchanged when the flag had none |
| `ArgumentParser.NormalizeStripsDashPrefix` | src/ArgumentParser.cxx:16-23 | normalisation removes a prefix of dashes only; the rest of the flag is kept as is |
| `ArgumentParser.NormalizeIdempotent` | src/ArgumentParser.cxx:16-23 | normalising twice is normalising once |
| `ArgumentParser.NormalizeKeepsCase` | src/ArgumentParser.cxx:16-23 | names are not case-folded ("--Verbose" and "--verbose" stay distinct); inner dashes are kept |
| `ArgumentParser.IsShortFlag` | src/ArgumentParser.cxx:25-27 | a short flag is a dash followed by exactly one character that is not a dash |
| `ArgumentParser.IsLongFlag` | src/ArgumentParser.cxx:29-31 | a long flag is two dashes followed by at least one more character |
| `ArgumentParser.FlagKindsExclusive` | src/ArgumentParser.cxx:25-31 | no token is both a short and a long flag |
| `ArgumentParser.ExtractFlagName` | src/ArgumentParser.cxx:33-42 | a long token names what follows its two dashes, a short token its alias or bare letter, anything else itself |
| `ArgumentParser.LongTokenNamesItsFlag` | src/ArgumentParser.cxx:34-35 | "--" followed by a name resolves to that name |
| `ArgumentParser.ShortAliasResolves` | src/ArgumentParser.cxx:36-39 | a one-letter alias registered with a flag resolves to the flag's normalised name |
| `ArgumentParser.ClusteredShortFlagsAreUnknown` | src/ArgumentParser.cxx:94-101 | a single-dash token of several letters is never a known flag |
| `ArgumentParser.HasFlag` | src/ArgumentParser.cxx:154-157 | a flag is present when a value is stored under its normalised name; `GetOptionalValue` is Some exactly then |
| `ArgumentParser.GetOptionalValue` | src/ArgumentParser.cxx:147-152 | a value is present iff the flag has one under its normalised name, and then it is that value |
| `ArgumentParser.GetValue` | src/ArgumentParser.cxx:131-135 | the plain lookup agrees with the optional lookup, with "" for a missing value |
| `ArgumentParser.GetValueOr` | src/ArgumentParser.cxx:137-140 | a missing or empty value yields the default, and a non-empty value yields itself |
| `ArgumentParser.IsTruthy` | src/ArgumentParser.cxx:144 | the four spellings of a true value: "true", "1", "yes" and "on", compared case-sensitively |
| `ArgumentParser.GetBoolValue` | src/ArgumentParser.cxx:142-145 | a flag reads true iff it has a value spelled true, 1, yes or on |
| `ArgumentParser.GetPositionalArg` | src/ArgumentParser.cxx:163-165 | an index in range gives that positional argument, any other index "" |
| `ArgumentParser.GetPositionalArgOr` | src/ArgumentParser.cxx:167-169 | an index in range gives that positional argument, any other index the default |
| `ArgumentParser.QueriesIgnoreLeadingDashes` | src/ArgumentParser.cxx:131-157 | queries give the same answer with or without leading dashes on the flag |
| `ArgumentParser.WithAlias` | src/ArgumentParser.cxx:60-62 | a non-empty short flag is mapped to the long name, replacing any earlier mapping; an empty one leaves the aliases as they were; other aliases are untouched |
| `ArgumentParser.AddFlag` | src/ArgumentParser.cxx:49-63 | the flag is registered under its normalised name; a non-empty default becomes its value; a short flag becomes its alias; other flags, values and aliases, the positional arguments, the errors and the program name and description are untouched |
| `ArgumentParser.AddBooleanFlag` | src/ArgumentParser.cxx:65-75 | the flag is registered as an optional boolean whose value reads "false"; other flags, values and aliases, the positional arguments, the errors and the program name and description are untouched |
| `ArgumentParser.BooleanFlagStartsFalse` | src/ArgumentParser.cxx:65-75 | a freshly registered boolean flag has a value and reads false |
| `ArgumentParser.ValidateArguments` | src/ArgumentParser.cxx:244-255 | validation holds when every required flag has a value; `RequiredFlagValidation` shows both cases |
| `ArgumentParser.RequiredFlagValidation` | src/ArgumentParser.cxx:244-255 | a required flag without default and without value fails validation; with a default it cannot make validation fail |
| `ArgumentParser.Clear` | src/ArgumentParser.cxx:234-242 | after clearing the value map, registry, aliases, positional arguments and errors are empty, no flag is found under any spelling, the program name and description are empty, and validation passes |
| `ArgumentParser.ClearForgetsEverything` | src/ArgumentParser.cxx:234-242 | clearing gives the same state whatever came before |
| `ArgumentParser.IsHelpToken` | src/ArgumentParser.cxx:88 | the help tokens are exactly "-h" and "--help" |
| `ArgumentParser.StartsWithDash` | src/ArgumentParser.cxx:94 | a token is a flag when its first character is '-'; an empty token reads its terminating '\0' and is not one (the same test decides at line 111 whether the next token can be a value) |
| `ArgumentParser.ParseToken` | src/ArgumentParser.cxx:84-125 | help stops without change; any other token advances by one, or by two exactly when a value without a dash was consumed; the registry never changes and no value is lost |
| `ArgumentParser.ParseFrom` | src/ArgumentParser.cxx:84-125 | the loop reports help exactly when some remaining token is a help token; values, positionals and errors only grow |
| `ArgumentParser.Parse` | src/ArgumentParser.cxx:77-129 | the result is true iff no help token follows the program name and every required flag has a value, whatever errors were recorded; the program name is argv[0] |
| `ArgumentParser.ValueFlagTakesNextToken` | src/ArgumentParser.cxx:109-115 | a value flag followed by a dashless token stores that token and skips it |
| `ArgumentParser.ValueFlagWithoutValue` | src/ArgumentParser.cxx:116-118 | a value flag at the end or before a dash token records "requires a value" and leaves every value as it was |
| `ArgumentParser.BooleanFlagConsumesNothing` | src/ArgumentParser.cxx:105-108 | a boolean flag is set to "true" and the next token is handled on its own |
| `ArgumentParser.UnknownFlagSkipped` | src/ArgumentParser.cxx:98-101 | an unknown flag records "Unknown flag" and parsing goes on with the next token |
| `ArgumentParser.BooleanFlagSeenIsTrue` | src/ArgumentParser.cxx:84-108 | a boolean flag given as --name anywhere before a help token reads true after the whole parse |
| `ArgumentParser.PositionalCommandLine` | src/ArgumentParser.cxx:121-124 | a command line without dash tokens appends its tokens in order as positionals, with no error and no value |
| `ArgumentParser.HelpStopsParsing` | src/ArgumentParser.cxx:87-91 | a help token makes the parse fail, and the tokens after it have no effect at all |
| `ArgumentParser.DocumentedExampleFlagsFirst` | src/ArgumentParser.cxx:259-263 | `program -v input.txt -o output.txt` gives verbose true, output "output.txt" and positional "input.txt" |
| `ArgumentParser.DocumentedExampleFlagLast` | src/ArgumentParser.cxx:265-268 | `program input.txt -v` gives verbose true and positional "input.txt" |
| `ArgumentParser.DocumentedExampleFlagsTogether` | src/ArgumentParser.cxx:270-274 | `program -v -o output.txt input.txt` gives verbose true, output "output.txt" and positional "input.txt" |

## Left out

- **Implant-decay and decay-gamma correlation passes.**
  - What: `InitialiseDeadtimeWindowManager`, `TagImplants`, `CorrelateImplantDecays`, `FillImplantDecayHistograms` and `CorrelateDecayGermaniums`, plus the public `Run…` entry points.
  - Why: they are declared in `include/CorrelationManager.hh:83-95` but have no bodies in the code, so there is nothing to model.
  - This also leaves out the time-range queries on the event maps that those passes would make.
- **HistogramManager.** It allocates ROOT histograms and writes them to a file. It is an output sink with no logic.
- **ConfigReader.**
  - It reads a configuration file through ROOT and exits the process on errors.
  - The cut values it supplies enter the model as the `Cuts` parameter.
- **Tree I/O.** `ExtractTrees`, `InitialiseReaders` and `LoadEvents` read ROOT trees. The model takes the trees' rows as input sequences instead.
- **Accessors.** `GetEventMaps`, `GetPositionalArgs`, `GetPositionalArgCount` and `GetParseErrors` only return a field, so they are read as fields.
- **Logger and the verbose log line in `IsNoisyStrip`.** They use the wall clock and console output, and have no effect on results.
- **`PrintHelp`, `PrintParsedArgs` and `TestParsing`.**
  - They only write to the console.
  - The three command lines that `TestParsing` documents are proved as lemmas instead.
- **`SetProgramDescription`.** It assigns one string field.
- **`Instance()`.** The singleton is replaced by an explicit parser value.
- **`GetClusterStrings`.** It only formats a debug string.
- **`main` and `IonBeta`.** They open files and orchestrate the stages.
- **Floating point.**
  - Positions and energies are exact reals, so IEEE rounding is not modelled.
  - Timestamps are unbounded naturals. The source casts them to `Long64_t` before subtracting, which wraps above 2^63; real timestamps are far below that.
- **Unused enums.** `EventType` and `InterruptedCoincidenceType` in `include/CorrelationManager.hh` are read by no code that has a body.
- **Uninitialised counters.** `gatedImplantCounter`, `betaCandidateCounter` and `matchedGammaCounter` are never initialised or used by any code that has a body.
- **The implant reader's values after its loop.** The gated loop reads them. What a `TTreeReaderValue` yields once its reader has run past the last entry, or for an empty tree, is ROOT's behaviour. The model takes these values as the `implantReaderRow` parameter of `FillMaps` and does not say which row they are.
- **Bytes versus characters in tokens.** `std::string` holds bytes, but the parser model's tokens are sequences of characters.
  - For ASCII tokens the two agree.
  - A token such as "-é" is three bytes in UTF-8. The code therefore treats it as neither a short nor a long flag and reports it as an unknown flag.
  - The model sees two characters, so `IsShortFlag` holds for it and "é" is looked up as an alias.
- **Validation messages.** `ValidateArguments` prints an error line to standard error for each missing required flag. The model keeps only the verdict.

## Findings

| source | as written | input that shows it | evidently intended | confidence | as-written member | corrected member |
|---|---|---|---|---|---|---|
| src/CorrelationManager.cxx:12 | `lower_bound` and `upper_bound` are both taken at `energy - gammaRange`, so the query only hits when that single value is a known line | known lines {100.0}, range 1.0, matched energy 100.5: no hit, although 100.0 lies within 1.0 of 100.5 | some known line lies in [energy - gammaRange, energy + gammaRange] | not executed; medium: the parameter name and the use of two bounds suggest a band | `Correlation.BetaCandidateEvent.HasMatchedGammaInRange` (`Correlation.GammaRangeQueryUsesOneKey`) | `Correlation.BetaCandidateEvent.HasMatchedGammaInBand` |
| src/TreeManager.cxx:111 | the gated-implant admission test reads the implant reader's `dssd`, `time_x` and `time_y`, not the gated row's own values | implant reader's last-loaded values pass the cuts; a gated row with dssd 2 when the cut is dssd 1 and a timing skew of 99800: stored. Conversely, reader values on detector 2: a gated row that passes every cut is dropped | each gated row is judged by its own dssd and timing skew, like the implant rows | not executed; high: the record stored right after is built from the gated branches | `TreeManager.FillMaps` with `TreeManager.FillGatedImplantMapAsWritten` (`TreeManager.GatedAdmissionIgnoresGatedRows`, `TreeManager.GatedAdmissionCounterexample`, `TreeManager.FillMapsGatedCounterexample`) | `TreeManager.FillGatedImplantMap` in `TreeManager.FillMapsIntended` |
