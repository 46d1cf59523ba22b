# Rock–till erosion models and their calibration drivers

This project models two pieces of the postglacial topography inversion study. The
first is two Landlab erosion-model variants that split the substrate into bedrock and
glacial till:

- **BasicSaRt (model C00)**: stream-power erosion, soil production and depth-dependent
  diffusion.
- **BasicThRt (model 802)**: stream-power erosion with a smoothed threshold, and
  linear diffusion.

Both blend every node's erodibility between the rock and till values. The blend weight
is the logistic function `F = 1 / (1 + exp(-(z - b) / D*))` of the node's height above
the rock–till contact. BasicThRt blends the erosion threshold the same way.

The second piece is two Dakota calibration drivers:

- **QUESO/DRAM (model 000)**: wraps each model evaluation in a resume protocol. It
  reads the hours left on the allocation from the scheduler. It decides from
  `fail_log.txt` and `outputs_for_analysis.txt` whether to run the model, to report a
  prior failure, or to copy finished metrics. On success it replaces its markers with
  the metrics.
- **HYBRID (model 800)**: always runs. It appends the metrics to
  `outputs_for_analysis.txt` and overwrites the results file.

## How the model is organised

- **`Outcomes`** (outcomes.dfy): `Option`, `Result`, and the two Python exceptions the
  core raises: `KeyError` for a missing parameter and `ValueError` for a failed `int`
  or `index`.
- **`Lithology`** (lithology.dfy): the numerics shared by both erosion models:
  - the contact weight, its value at the contact and its monotonicity;
  - the blend and the fact that it stays between the rock and till values;
  - the per-node weight update restricted to the data nodes;
  - the selection of flooded nodes (`flood_status == 3`).

  `exp` is a parameter constrained by `ExpLaw`: positive, `exp(0) = 1`, monotone.
- **`ModelParameters`** (model_parameters.dfy): which parameter lookup raises
  `KeyError`.
- **`BasicSaRtModel`** (basic_sart.dfy) and **`BasicThRtModel`** (basic_thrt.dfy): the
  parameter scaling done by each constructor, and one class per model.
  - The class holds the node fields as `array<real>` that the methods update in place,
    as the numpy fields are.
  - Its methods are the constructor, the erodibility (and threshold) update, the
    bedrock clip (C00), and `RunOneStep`. `RunOneStep` is proved in two halves, each a
    method of its own: `ErodeAndClip` and `ProduceDiffuseAndLower` (C00), or `ErodeStep`
    and `DiffuseAndLower` (802). `SetLayers` (C00) writes the diffuser's three layers back
    in place.
  - `RunOneStep` takes the Landlab components as function parameters: the flow router,
    eroder, weatherer, diffuser and outlet lowering. Its postcondition states the new
    fields as these functions applied in the source's order.
- **`Text`** (text.dfy): the Python 2 string operations the drivers rely on:
  - `strip`, `split` with an explicit separator, `join`;
  - `int()` of a string, `str` of an integer, `zfill`;
  - `readlines`, and writing a value per line.

  Round trips between these are proved.
- **`JobFiles`** (job_files.dfy): what the two drivers share:
  - the run directory as a record of the three files the protocol touches;
  - the model outcome;
  - restart selection from `saved_model.model`;
  - the metric-writing loop;
  - the DEM and figure names.
- **`QuesoDriver`** (queso_driver.dfy): the time-left parsing, the gate, the report
  and success paths, a whole submission as a function (`Submit`) and as the
  step-by-step method (`RunSubmission`), and lemmas about sequences of submissions.
- **`HybridDriver`** (hybrid_driver.dfy): the same for the HYBRID driver.

The QUESO driver repeats the HYBRID driver's restart, DEM-name and figure-name code at
QUESO_DRAM driver lines 144-152, 171-173 and 197-205. The table cites the HYBRID
lines for the shared `JobFiles` members.

Four behaviours of the code that a reader might not expect, all modelled as written:

- A fresh QUESO run with fewer than 23 hours left still runs the model; it only skips
  writing the failure marker.
- The contact width `D*` is not validated. A zero width gives IEEE `inf`/`nan` in
  numpy and has no counterpart here, so the constructors require a non-zero width.
- A restart file that fails to load falls back silently to a fresh model.
- The HYBRID driver has no resume gate at all.

In the table, `C00` stands for
`erosion_modeling_suite/erosion_model/basic_combination/model_C00_basicSaRt/model_C00_basicSaRt.py`,
`802` for
`erosion_modeling_suite/erosion_model/basic_combination/model_802_basicThRt/model_802_basicThRt.py`,
`QUESO` for `calibration/sew/QUESO_DRAM/model_000/lowering_history_0.pg24f_ic5etch/driver.py`
and `HYBRID` for `calibration/sew/HYBRID/model_800/lowering_history_0.pg24f_7etch/driver.py`.
The source cells below give the full paths.

## Model

| member | source | states |
|---|---|---|
| Lithology.ContactWeight | erosion_modeling_suite/erosion_model/basic_combination/model_C00_basicSaRt/model_C00_basicSaRt.py:185-189 | the weight `1/(1+exp(-(z-b)/D*))` lies strictly between 0 and 1 for any non-zero width |
| Lithology.WeightAtContact | erosion_modeling_suite/erosion_model/basic_combination/model_C00_basicSaRt/model_C00_basicSaRt.py:161-164 | F(0) = 0.5: the weight is one half when the surface is at the contact |
| Lithology.WeightMonotone | erosion_modeling_suite/erosion_model/basic_combination/model_C00_basicSaRt/model_C00_basicSaRt.py:161-168 | for a positive width, a higher surface above the same contact never gets a smaller weight (more till-like) |
| Lithology.BlendBetween | erosion_modeling_suite/erosion_model/basic_combination/model_C00_basicSaRt/model_C00_basicSaRt.py:169-172 | `F K_till + (1-F) K_rock` with F in [0,1] lies between the rock and till values, in whichever order they are |
| Lithology.BlendAtContact | erosion_modeling_suite/erosion_model/basic_combination/model_C00_basicSaRt/model_C00_basicSaRt.py:169-172 | at the contact the blended value is the mean of the till and rock values |
| Lithology.WeightsAt | erosion_modeling_suite/erosion_model/basic_combination/model_C00_basicSaRt/model_C00_basicSaRt.py:185-189 | the vectorised update writes only the data nodes, each with a weight in (0,1); every other node keeps its old weight |
| Lithology.WeightsAtDataNodes | erosion_modeling_suite/erosion_model/basic_combination/model_C00_basicSaRt/model_C00_basicSaRt.py:185-189 | at every data node the update leaves exactly the contact weight `F(z, b)` of that node's surface and contact elevations |
| Lithology.WeightsStayInUnitInterval | erosion_modeling_suite/erosion_model/basic_combination/model_C00_basicSaRt/model_C00_basicSaRt.py:140 | weights that start in [0,1] (the zero array) stay in [0,1] after any update |
| Lithology.SetWeights | erosion_modeling_suite/erosion_model/basic_combination/model_C00_basicSaRt/model_C00_basicSaRt.py:185-189 | the fancy-index assignment `erody_wt[data_nodes] = ...`: afterwards the weight array is exactly `WeightsAt` of its old contents |
| Lithology.Blend | erosion_modeling_suite/erosion_model/basic_combination/model_C00_basicSaRt/model_C00_basicSaRt.py:197-199 | `F K_till + (1-F) K_rock` at one node: weight 1 gives the till value, weight 0 the rock value, and equal values give that value |
| Lithology.BlendAll | erosion_modeling_suite/erosion_model/basic_combination/model_802_basicThRt/model_802_basicThRt.py:177-183 | the whole-field blend: one value per node; a node of weight 1 gets the till value and a node of weight 0 the rock value |
| Lithology.BlendAllBetween | erosion_modeling_suite/erosion_model/basic_combination/model_802_basicThRt/model_802_basicThRt.py:177-183 | every node of a per-node blend from unit-interval weights lies between the rock and till values |
| Lithology.FloodedNodes | erosion_modeling_suite/erosion_model/basic_combination/model_C00_basicSaRt/model_C00_basicSaRt.py:210 | `np.where(flood_status == 3)[0]`: strictly increasing, and a node is listed exactly when its status is 3 |
| Lithology.Overwrite | erosion_modeling_suite/erosion_model/basic_combination/model_802_basicThRt/model_802_basicThRt.py:200 | the eroder's in-place update of the elevation field: afterwards the field holds exactly the new values |
| ModelParameters.FirstMissing | erosion_modeling_suite/erosion_model/basic_combination/model_C00_basicSaRt/model_C00_basicSaRt.py:41-83 | no key is reported exactly when every required key is present; a reported key is the first missing one in lookup order |
| BasicSaRtModel.InitialSoilThickness | erosion_modeling_suite/erosion_model/basic_combination/model_C00_basicSaRt/model_C00_basicSaRt.py:76-79 | the scaled `initial_soil_thickness` when given, otherwise the default 1.0 |
| BasicSaRtModel.ScaleParameters | erosion_modeling_suite/erosion_model/basic_combination/model_C00_basicSaRt/model_C00_basicSaRt.py:41-83 | succeeds exactly when all six required keys are present; otherwise KeyError names the first missing required key in lookup order; on success the contact width, the two soil decay depths and the production rate are scaled by the length factor, the diffusivity by its square, `m_sp` and `n_sp` are taken as given, and the initial soil thickness is the one above |
| BasicSaRtModel.ClipToSurface | erosion_modeling_suite/erosion_model/basic_combination/model_C00_basicSaRt/model_C00_basicSaRt.py:223-224 | `np.minimum(b, z)`: every result is at or below both the surface and the old bedrock, and equals one of them |
| BasicSaRtModel.ClipKeepsBuriedBedrock | erosion_modeling_suite/erosion_model/basic_combination/model_C00_basicSaRt/model_C00_basicSaRt.py:219-224 | bedrock already at or below the surface is left as it is |
| BasicSaRtModel.ClipIdempotent | erosion_modeling_suite/erosion_model/basic_combination/model_C00_basicSaRt/model_C00_basicSaRt.py:223-224 | clipping twice against the same surface is clipping once |
| BasicSaRtModel.BasicSaRt.constructor | erosion_modeling_suite/erosion_model/basic_combination/model_C00_basicSaRt/model_C00_basicSaRt.py:33-95 | zero erodibility and weight fields; soil of the initial thickness everywhere and bedrock that far below the surface, so bedrock plus soil is the surface; rock and till erodibilities start at their base values |
| BasicSaRtModel.BasicSaRt.UpdateErodibilityField | erosion_modeling_suite/erosion_model/basic_combination/model_C00_basicSaRt/model_C00_basicSaRt.py:184-199 | weights recomputed at the data nodes only; with time-varying precipitation the two erodibilities are the base values times the factor at the current model time, else unchanged; every node's erodibility is the blend and lies between rock and till |
| BasicSaRtModel.BasicSaRt.ClipBedrockToSurface | erosion_modeling_suite/erosion_model/basic_combination/model_C00_basicSaRt/model_C00_basicSaRt.py:219-224 | the bedrock field becomes the clip of the old bedrock to the surface, so no bedrock lies above the surface |
| BasicSaRtModel.BasicSaRt.RunOneStep | erosion_modeling_suite/erosion_model/basic_combination/model_C00_basicSaRt/model_C00_basicSaRt.py:201-239 | one step in the source's order: route, flooded nodes from the old surface, erodibility update, erosion with the new erodibility skipping flooded nodes, bedrock clip, soil production from the old soil, diffusion, time advanced by dt, outlet lowered at the new time |
| BasicSaRtModel.BasicSaRt.ErodeAndClip | erosion_modeling_suite/erosion_model/basic_combination/model_C00_basicSaRt/model_C00_basicSaRt.py:206-224 | the water-erosion half of a step: erosion from the old surface with the flooded nodes of the old surface and the freshly blended erodibility, then bedrock clipped to the eroded surface; soil depth untouched |
| BasicSaRtModel.BasicSaRt.ProduceDiffuseAndLower | erosion_modeling_suite/erosion_model/basic_combination/model_C00_basicSaRt/model_C00_basicSaRt.py:226-236 | the hillslope half of a step: production from the current soil depth, the diffuser's new surface, soil and bedrock, time advanced by dt, outlet lowered at the new time |
| BasicSaRtModel.BasicSaRt.SetLayers | erosion_modeling_suite/erosion_model/basic_combination/model_C00_basicSaRt/model_C00_basicSaRt.py:229-230 | the diffuser's in-place update: the surface, soil and bedrock fields hold exactly the new layers and the model invariant still holds |
| BasicThRtModel.ScaleParameters | erosion_modeling_suite/erosion_model/basic_combination/model_802_basicThRt/model_802_basicThRt.py:38-63 | succeeds exactly when the contact width, `m_sp` and `n_sp` are present; otherwise KeyError names the first missing one in lookup order; on success the width is scaled by the length factor, the diffusivity by its square, and the erodibilities, thresholds and exponents are taken as given |
| BasicThRtModel.BasicThRt.constructor | erosion_modeling_suite/erosion_model/basic_combination/model_802_basicThRt/model_802_basicThRt.py:69-127 | zero erodibility, threshold and weight fields; base erodibilities and thresholds kept as given |
| BasicThRtModel.BasicThRt.UpdateErodibilityAndThresholdFields | erosion_modeling_suite/erosion_model/basic_combination/model_802_basicThRt/model_802_basicThRt.py:165-183 | as for C00, and the threshold field is the blend of the till and rock thresholds with the same weights, each node between the two |
| BasicThRtModel.BasicThRt.RunOneStep | erosion_modeling_suite/erosion_model/basic_combination/model_802_basicThRt/model_802_basicThRt.py:185-212 | one step: route, flooded nodes, erodibility and threshold update, thresholded erosion skipping flooded nodes, linear diffusion, time advanced by dt, outlet lowered at the new time |
| BasicThRtModel.BasicThRt.ErodeStep | erosion_modeling_suite/erosion_model/basic_combination/model_802_basicThRt/model_802_basicThRt.py:190-200 | the water-erosion half of a step: flooded nodes from the old surface, erodibility and threshold refreshed, thresholded erosion of the old surface with the new fields |
| BasicThRtModel.BasicThRt.DiffuseAndLower | erosion_modeling_suite/erosion_model/basic_combination/model_802_basicThRt/model_802_basicThRt.py:202-209 | linear diffusion of the eroded surface, time advanced by dt, outlet lowered at the new time |
| Text.Strip | calibration/sew/QUESO_DRAM/model_000/lowering_history_0.pg24f_ic5etch/driver.py:22 | `output.strip()`: a non-empty result neither starts nor ends with whitespace |
| Text.StripShape | calibration/sew/QUESO_DRAM/model_000/lowering_history_0.pg24f_ic5etch/driver.py:22 | the stripped text is the input from its first non-blank character on, and everything cut before and after it is whitespace |
| Text.StripSurrounding | calibration/sew/QUESO_DRAM/model_000/lowering_history_0.pg24f_ic5etch/driver.py:22 | whitespace added before and after a string does not change what `strip` leaves |
| Text.Split | calibration/sew/QUESO_DRAM/model_000/lowering_history_0.pg24f_ic5etch/driver.py:22-24 | `s.split(sep)`: at least one piece, and no piece contains the separator |
| Text.Join | calibration/sew/HYBRID/model_800/lowering_history_0.pg24f_7etch/driver.py:134 | `sep.join(parts)` starts with the first part, and the separator follows it when there are two or more parts |
| Text.ParseInt | calibration/sew/QUESO_DRAM/model_000/lowering_history_0.pg24f_ic5etch/driver.py:23-24 | `int(s)` raises only ValueError; a blank or all-whitespace string raises; a negative result comes only from a stripped text starting with `-` |
| Text.ParseIntSpaceAfterSign | calibration/sew/QUESO_DRAM/model_000/lowering_history_0.pg24f_ic5etch/driver.py:24 | whitespace between the sign and the digits is skipped, as in Python 2: `int('-' + w + d)` is `-d` for whitespace `w` and digits `d` |
| Text.Str | calibration/sew/HYBRID/model_800/lowering_history_0.pg24f_7etch/driver.py:103-104 | `str(k)` is non-empty with no whitespace: all digits for `k >= 0`, a `-` and then digits for `k < 0` |
| Text.ZFill | calibration/sew/HYBRID/model_800/lowering_history_0.pg24f_7etch/driver.py:103-104 | `s.zfill(w)` has length `max(len(s), w)`, keeps everything after the first character at its end, and begins with that character or a zero; a digit string stays all digits and ends with the original |
| Text.JoinSplit | calibration/sew/HYBRID/model_800/lowering_history_0.pg24f_7etch/driver.py:127-134 | joining the pieces of `s.split(sep)` with `sep` gives back `s` |
| Text.ParseIntStr | calibration/sew/QUESO_DRAM/model_000/lowering_history_0.pg24f_ic5etch/driver.py:24-28 | `int(str(k)) == k` for every integer |
| Text.ParseIntZFillStr | calibration/sew/HYBRID/model_800/lowering_history_0.pg24f_7etch/driver.py:103-105 | `int(str(k).zfill(w)) == k` for every integer, negative ones included (the zeros go after the sign) |
| Text.ReadJoinLines | calibration/sew/HYBRID/model_800/lowering_history_0.pg24f_7etch/driver.py:122-124 | reading back a file written one value per line gives one line per value, in order |
| Text.ReadLinesShape | calibration/sew/QUESO_DRAM/model_000/lowering_history_0.pg24f_ic5etch/driver.py:35-36 | `readlines()`: no lines exactly for an empty file; every line non-empty with a newline only at its end; every line but the last ends in a newline |
| Text.ReadLinesConcat | calibration/sew/QUESO_DRAM/model_000/lowering_history_0.pg24f_ic5etch/driver.py:35-36 | the lines `readlines()` returns, put back together, are exactly the file's text, for any file: nothing is dropped or rewritten |
| Text.ContainsOccurs | calibration/sew/QUESO_DRAM/model_000/lowering_history_0.pg24f_ic5etch/driver.py:38 | `'fail' in line` holds exactly when `fail` occurs at some position of the line |
| Text.ReadLinesAppend | calibration/sew/HYBRID/model_800/lowering_history_0.pg24f_7etch/driver.py:117-119 | appending to a file that ends a line keeps its lines and adds the new ones after them |
| JobFiles.SelectModel | calibration/sew/HYBRID/model_800/lowering_history_0.pg24f_7etch/driver.py:76-84 | the saved model when it loads; a fresh model when the file is missing or loading it raises |
| JobFiles.WriteMetrics | calibration/sew/HYBRID/model_800/lowering_history_0.pg24f_7etch/driver.py:117-119 | the loop leaves the prior contents followed by each value and a newline, in bundle order |
| JobFiles.DemName | calibration/sew/HYBRID/model_800/lowering_history_0.pg24f_7etch/driver.py:103-105 | the DEM name starts with the output base name, ends in `.nc`, and is `max(4, len(str(iteration - 1))) + 3` characters longer than the base name |
| JobFiles.DemNameStem | calibration/sew/HYBRID/model_800/lowering_history_0.pg24f_7etch/driver.py:103-105 | the DEM name is the output base name, then exactly `max(4, len(str(iteration - 1)))` characters that `int` reads back as `iteration - 1` (all digits when `iteration >= 1`), then `.nc` |
| JobFiles.FigureParts | calibration/sew/HYBRID/model_800/lowering_history_0.pg24f_7etch/driver.py:126-128 | the path components with `png` appended contain no `/` |
| JobFiles.FigureName | calibration/sew/HYBRID/model_800/lowering_history_0.pg24f_7etch/driver.py:126-134 | the figure name raises only ValueError, and a name it gives contains no `/` |
| JobFiles.IndexOf | calibration/sew/HYBRID/model_800/lowering_history_0.pg24f_7etch/driver.py:130 | `list.index`: the position of the first occurrence |
| JobFiles.FigureNameFailure | calibration/sew/HYBRID/model_800/lowering_history_0.pg24f_7etch/driver.py:129-132 | the figure name raises exactly when no path component is `results` or `study3py` |
| JobFiles.FigureNameResultsFirst | calibration/sew/HYBRID/model_800/lowering_history_0.pg24f_7etch/driver.py:129-134 | a `results` component is used even when a `study3py` component is present |
| JobFiles.FigureNameEndsWithPng | calibration/sew/HYBRID/model_800/lowering_history_0.pg24f_7etch/driver.py:126-134 | when the cut leaves at least one component, the figure name ends in `png`; when it leaves two or more, it ends in `.png` |
| QuesoDriver.HoursLeft | calibration/sew/QUESO_DRAM/model_000/lowering_history_0.pg24f_ic5etch/driver.py:22-26 | the only exception that escapes the hours parse is ValueError (IndexError is caught and gives 0) |
| QuesoDriver.HoursLeftIgnoresSurroundingSpace | calibration/sew/QUESO_DRAM/model_000/lowering_history_0.pg24f_ic5etch/driver.py:22 | whitespace before and after the scheduler's output does not change the hours read from it |
| QuesoDriver.HoursLeftOfSqueueClock | calibration/sew/QUESO_DRAM/model_000/lowering_history_0.pg24f_ic5etch/driver.py:18-26 | the scheduler's raw two-line output (header line, then an `h:mm:ss` time right-justified in ten columns) gives `h` hours |
| QuesoDriver.HoursLeftOfSqueueMinutes | calibration/sew/QUESO_DRAM/model_000/lowering_history_0.pg24f_ic5etch/driver.py:18-26 | the raw output with a `mm:ss` time gives 0 hours |
| QuesoDriver.HoursLeftOfSqueueDays | calibration/sew/QUESO_DRAM/model_000/lowering_history_0.pg24f_ic5etch/driver.py:18-26 | the raw output with a `d-hh:mm:ss` time raises ValueError, whether the value is padded or fills all ten columns (then no blank precedes it and the third field from the end is `TIME_LEFT\nd-hh`) |
| QuesoDriver.HoursLeftOfClock | calibration/sew/QUESO_DRAM/model_000/lowering_history_0.pg24f_ic5etch/driver.py:22-24 | a time left of `h:mm:ss` after the header reads as `h` hours |
| QuesoDriver.HoursLeftUnderAnHour | calibration/sew/QUESO_DRAM/model_000/lowering_history_0.pg24f_ic5etch/driver.py:22-26 | a time left of `m:ss` has too few fields and counts as 0 hours |
| QuesoDriver.HoursLeftWithDaysRaises | calibration/sew/QUESO_DRAM/model_000/lowering_history_0.pg24f_ic5etch/driver.py:22-26 | a time left of `d-hh:mm:ss`, for any non-empty digit strings `d` and `hh` (zero-padded or not), makes `int` raise ValueError, which the driver does not catch |
| QuesoDriver.Gate | calibration/sew/QUESO_DRAM/model_000/lowering_history_0.pg24f_ic5etch/driver.py:32-64 | a prior failure never runs the model; the model is skipped only when a failure log or metric file exists; the metric file is never touched; the directory changes only for a fresh run with at least 23 hours left |
| QuesoDriver.ScanFailLog | calibration/sew/QUESO_DRAM/model_000/lowering_history_0.pg24f_ic5etch/driver.py:35-41 | the model is run exactly when no line of the failure log contains `fail`, and a failure is recorded exactly when it is not |
| QuesoDriver.RunGate | calibration/sew/QUESO_DRAM/model_000/lowering_history_0.pg24f_ic5etch/driver.py:32-64 | the driver's gate, marker writes included, agrees with the `Gate` decision function |
| QuesoDriver.RunSubmission | calibration/sew/QUESO_DRAM/model_000/lowering_history_0.pg24f_ic5etch/driver.py:17-234 | the step-by-step submission agrees with the `Submit` function: parse, gate, run or report, record the metrics and remove the failure log on success |
| QuesoDriver.Report | calibration/sew/QUESO_DRAM/model_000/lowering_history_0.pg24f_ic5etch/driver.py:227-234 | a skipped run writes `fail` to the results after a failure, or copies the metric file to them; the failure log and metric file are unchanged |
| QuesoDriver.RecordSuccess | calibration/sew/QUESO_DRAM/model_000/lowering_history_0.pg24f_ic5etch/driver.py:184-195 | after a success the failure log is gone, the metric file holds exactly the bundle, one value per line and ending a line, and the results are identical to it |
| QuesoDriver.Submit | calibration/sew/QUESO_DRAM/model_000/lowering_history_0.pg24f_ic5etch/driver.py:17-234 | a skipped run leaves the failure log and metric file as they were; a crash leaves the metric file; a successful run leaves no failure log and results equal to the metric file; the model runs only when the time left parsed |
| QuesoDriver.PriorFailureReported | calibration/sew/QUESO_DRAM/model_000/lowering_history_0.pg24f_ic5etch/driver.py:33-41 | a failure log with a `fail` line skips the model and writes `fail` to the results, nothing else |
| QuesoDriver.CleanFailLogRuns | calibration/sew/QUESO_DRAM/model_000/lowering_history_0.pg24f_ic5etch/driver.py:32-41 | a failure log without a `fail` line runs the model and writes no marker |
| QuesoDriver.FailLogTakesPrecedence | calibration/sew/QUESO_DRAM/model_000/lowering_history_0.pg24f_ic5etch/driver.py:33-46 | when a failure log exists the metric file does not affect the decision |
| QuesoDriver.FinishedMetricsCopied | calibration/sew/QUESO_DRAM/model_000/lowering_history_0.pg24f_ic5etch/driver.py:46-52 | with no failure log, a 20-line metric file skips the model and is copied to the results |
| QuesoDriver.IncompleteMetricsRun | calibration/sew/QUESO_DRAM/model_000/lowering_history_0.pg24f_ic5etch/driver.py:46-52 | a metric file of any other length runs the model with no marker |
| QuesoDriver.FreshRunMarksFirst | calibration/sew/QUESO_DRAM/model_000/lowering_history_0.pg24f_ic5etch/driver.py:53-64 | a fresh directory with at least 23 hours left gets `fail` in the failure log and the results before the model runs |
| QuesoDriver.ShortAllocationStillRuns | calibration/sew/QUESO_DRAM/model_000/lowering_history_0.pg24f_ic5etch/driver.py:53-64 | a fresh directory with fewer than 23 hours left still runs the model, without a marker |
| QuesoDriver.UnparsableTimeTouchesNothing | calibration/sew/QUESO_DRAM/model_000/lowering_history_0.pg24f_ic5etch/driver.py:22-26 | when the time left cannot be parsed, nothing runs and no file changes |
| QuesoDriver.SuccessIsFinal | calibration/sew/QUESO_DRAM/model_000/lowering_history_0.pg24f_ic5etch/driver.py:184-195 | a successful 20-value run leaves no failure log and the bundle in both files; every later submission skips the model and leaves the directory as it is |
| QuesoDriver.CrashAfterMarkIsFinal | calibration/sew/QUESO_DRAM/model_000/lowering_history_0.pg24f_ic5etch/driver.py:57-64 | a marked fresh run that crashes is reported as failed by every later submission, which changes nothing |
| QuesoDriver.ShortAllocationCrashRetries | calibration/sew/QUESO_DRAM/model_000/lowering_history_0.pg24f_ic5etch/driver.py:53-64 | an unmarked run that crashes leaves the directory unchanged, so the next submission runs again |
| QuesoDriver.ReadOneLineUnterminated | calibration/sew/QUESO_DRAM/model_000/lowering_history_0.pg24f_ic5etch/driver.py:35-38 | the marker `fail` (no newline) reads back as the single line `fail` |
| HybridDriver.RecordMetrics | calibration/sew/HYBRID/model_800/lowering_history_0.pg24f_7etch/driver.py:115-124 | the metric file becomes its old contents (empty when missing) followed by exactly the new results; the failure log is untouched |
| HybridDriver.Submit | calibration/sew/HYBRID/model_800/lowering_history_0.pg24f_7etch/driver.py:76-124 | every submission runs the model and none touches the failure log |
| HybridDriver.RunSubmission | calibration/sew/HYBRID/model_800/lowering_history_0.pg24f_7etch/driver.py:76-124 | the step-by-step submission, both write loops included, agrees with the `Submit` function |
| HybridDriver.AlwaysRuns | calibration/sew/HYBRID/model_800/lowering_history_0.pg24f_7etch/driver.py:76-86 | every submission runs the model whatever the directory holds; a crash changes no file |
| HybridDriver.SuccessRecordsBundle | calibration/sew/HYBRID/model_800/lowering_history_0.pg24f_7etch/driver.py:115-124 | after a success the results hold exactly the bundle, one value per line in order, and the metric file still starts with its old contents |
| HybridDriver.AppendKeepsPriorLines | calibration/sew/HYBRID/model_800/lowering_history_0.pg24f_7etch/driver.py:117-119 | appending keeps every earlier line and adds one line per value, so a resubmitted finished run grows the file by a whole bundle |

## Left out

- The Landlab components (`FlowAccumulator` with `DepressionFinderAndRouter`, `FastscapeEroder`, `StreamPowerSmoothThresholdEroder`, `ExponentialWeatherer`, `DepthDependentDiffuser`, `LinearDiffuser`) are not part of this model. They enter `RunOneStep` as function parameters, whose only assumed property is that they preserve field lengths.
- The `ErosionModel` base class is not part of this model. `_length_factor`, `get_parameter_from_exponent` (the `K_*`, threshold and diffusivity values), `data_nodes`, `update_outlet` and the precipitation changer's adjustment factor are parameters. The outlet lowering is a function of the surface alone: the model assumes `update_outlet` changes only `topographic__elevation` and leaves `bedrock__elevation` and `soil__depth` as they are.
- `check_walltime` (a clock and a save-and-exit) is left out: it reads the wall clock.
- `read_esri_ascii` and the `rock_till_file__name` lookup are left out: they are file I/O. The contact elevations are given to the constructor as an array.
- Lithology.ContactWeight: requires a non-zero contact width, because numpy's division by zero gives IEEE `inf`/`nan`, and floating point is not modelled. All reals are exact.
- BasicSaRtModel.BasicSaRt.constructor: always allocates new `substrate__erodibility`, `soil__depth` and `bedrock__elevation` fields. It does not reuse fields already on the grid, so aliasing with a pre-existing grid field is not captured. `model_time` is a constructor parameter, because the base class sets it.
- BasicThRtModel.BasicThRt.constructor: likewise allocates new erodibility and threshold fields rather than reusing existing grid fields.
- `main()` of both model files is left out: argument handling and `run()` belong to the base class.
- The scheduler query (`squeue`) is a string parameter. The model run and the metric calculators (`GroupedDifferences`, `MetricDifference`) are reduced to their outcome: a crash, or a bundle of already formatted values. Formatting floats with `str` is not modelled.
- `dprepro`, the YAML load, `np.loadtxt`, `evaluation_log.txt`, `usage.txt` and `imshow_grid` are left out: they are logging, plotting and template I/O that do not affect the protocol files. The figure name is modelled, but writing the figure is not.
- A crash part-way through writing a file is not modelled: each write is atomic here.
- QuesoDriver.ScanFailLog: reports `fail` as false when no line contains `fail`. In Python the variable stays unbound, but it is read only when the model does not run.
- QuesoDriver.SqueueOutput: a value wider than ten columns is printed whole rather than cut to the field width, so the raw-output lemmas consider times of at most ten characters (every time left under ten days).
- Python 3 behaviour is not modelled: the string operations are Python 2's, the version the drivers were written for. Under Python 3, `communicate()` returns bytes, and `output.strip().split(' ')` at QUESO driver.py:22 would raise TypeError before any hours are read.
