# Descriptive statistics and control charts, modelled in Dafny

The system is a small Flask web application (`pro/app.py`). The user submits a sample in a form, either as comma-separated values, as grouped data `start-end:frequency;...`, or both. The application assembles one list of numbers from this input and answers with a results page. That page shows:

- the mean;
- the median;
- the mode (or "No unique mode");
- the sample standard deviation;
- the quartile deviation.

It also draws plots, among them four Shewhart control charts (X, P, R and C). Each chart is labelled "In Control" or "Out of Control".

This project models the computational core of that program and proves properties of it:

- `Text`: Python's `str.split` with a one-character separator, and `str.join`. Split, join and round-trip lemmas.
- `SampleStatistics`: `calculate_statistics`. It covers the mean, the median and `statistics.multimode` with the "No unique mode" rule, the (squared) standard deviation, and the quartile halves of the sorted sample with the quartile deviation. The error cases (an empty sample, a single value) are included.
- `ControlCharts`: the rule `check_control`, and the four charts' centre lines and control limits. The range list of the R chart is included. So is the case where `np.sqrt` of a negative radicand makes the limits NaN and the chart reports "In Control".
- `InputAssembly`: the `results` handler's assembly of the sample. The direct values come first. Then the grouped entries are read one at a time, imperatively, with a loop invariant on the growing list, stopping with the source's exact message at the first malformed entry. Then the handler's three possible answers are modelled.

Numbers are mathematical reals. `float()` and `int()` on strings are function parameters: partial parsers that answer `None` where Python raises `ValueError`. `np.sqrt` is a parameter `r` constrained by `r >= 0 && r * r == v`.

A negative radicand in the P or C chart does not raise an error: `np.sqrt` returns NaN, and so do both limits computed from it. A limit is therefore modelled as a `Bound`, a number or NaN. The comparisons `x > ucl` and `x < lcl` of `check_control` are false against NaN, so the rule itself labels such a chart "In Control". `ControlCharts.CheckControl`, `ControlCharts.Shewhart`, `ControlCharts.PChart` and `ControlCharts.CChart` derive this from the comparisons.

## Model

| member | source | states |
|---|---|---|
| Text.Split | pro/app.py:180-181 | `str.split` never returns an empty list: there is always at least one piece |
| Text.SplitPiecesFree | pro/app.py:180-181 | no piece of a split contains the separator |
| Text.JoinSplit | pro/app.py:177-181 | joining the pieces with the separator gives back the original text |
| Text.SplitCount | pro/app.py:180-181 | a text with k separators splits into exactly k + 1 pieces, which is what the two-way unpacking checks |
| Text.SplitJoin | pro/app.py:177-181 | joining separator-free pieces and splitting again gives the same pieces |
| Text.Join | pro/app.py:24 | `sep.join(parts)` is as long as the parts together plus one separator between each two, and starts with the first part |
| SampleStatistics.Min | pro/app.py:135 | `min` of a non-empty list is one of its elements and at most every element |
| SampleStatistics.Max | pro/app.py:135 | `max` of a non-empty list is one of its elements and at least every element |
| SampleStatistics.Insert | pro/app.py:26 | inserting into a sorted list keeps it sorted and adds exactly that element |
| SampleStatistics.Sort | pro/app.py:26 | `sorted(data)` is ascending and a permutation of the data |
| SampleStatistics.Mean | pro/app.py:18 | the arithmetic mean of a non-empty sample lies between its minimum and maximum |
| SampleStatistics.Median | pro/app.py:19 | the median (middle element, or the average of the two middle elements of the sorted sample) lies between minimum and maximum |
| SampleStatistics.Distinct | pro/app.py:20 | the distinct values hold exactly the sample's values, each once |
| SampleStatistics.MaxCount | pro/app.py:20 | the largest multiplicity is at least every value's multiplicity and is attained by some value |
| SampleStatistics.KeepCount | pro/app.py:20 | filtering keeps exactly the values of the given multiplicity, and lists none twice when its input lists none twice |
| SampleStatistics.Multimode | pro/app.py:20 | `multimode(data)` lists each modal value once and has no more entries than the sample |
| SampleStatistics.MultimodeMembers | pro/app.py:20 | a value is among `multimode(data)` iff it occurs in the data and no value occurs more often |
| SampleStatistics.MultimodeNonEmpty | pro/app.py:20 | a non-empty sample has at least one mode |
| SampleStatistics.NoUniqueModeIffDistinct | pro/app.py:20-22 | the mode is "No unique mode" iff all values of the sample are different (`len(modes) == len(data)`) |
| SampleStatistics.ModesListed | pro/app.py:20-24 | when modes are reported, the listed values are exactly the most frequent ones |
| SampleStatistics.Mode | pro/app.py:20-24 | reported modes are at least one and fewer than the data points, each listed once; an empty sample gets the sentinel |
| SampleStatistics.ModeText | pro/app.py:21-24 | the sentinel reads "No unique mode"; a single mode is shown alone; several are the first one's text, then ", ", then the text of the remaining modes in order |
| SampleStatistics.SquaredDeviations | pro/app.py:25 | the sum of squared deviations from a centre is non-negative |
| SampleStatistics.SampleVariance | pro/app.py:25 | the square of `statistics.stdev` (divisor n - 1) is defined from two values on and is non-negative |
| SampleStatistics.PopulationVariance | pro/app.py:102 | the square of `np.std` (divisor n) is non-negative |
| SampleStatistics.LowerHalf | pro/app.py:26-27 | `sorted_data[:n//2]` holds n//2 values in ascending order |
| SampleStatistics.UpperHalf | pro/app.py:26-28 | `sorted_data[n//2:]` holds the other n - n//2 values in ascending order |
| SampleStatistics.QuartileHalves | pro/app.py:26-28 | the halves `sorted[:n//2]` and `sorted[n//2:]` have n//2 and n - n//2 elements, concatenate to the sorted sample, and every lower element is at most every upper element |
| SampleStatistics.QuartileDeviation | pro/app.py:27-29 | `(q3 - q1) / 2` is non-negative for every sample of at least two values |
| SampleStatistics.CalculateStatistics | pro/app.py:17-30 | succeeds iff the sample has at least two values; an empty sample fails in `mean`, a single value fails in `stdev`; on success the mean and median lie in [min, max], the mode is "No unique mode" iff all values differ, and the variance and quartile deviation are non-negative |
| ControlCharts.CheckControl | pro/app.py:32-34 | "Out of Control" iff some point compares above the upper or below the lower limit, where no point compares beyond a NaN limit |
| ControlCharts.InControlWithin | pro/app.py:32-34 | with numeric limits, "In Control" iff every point lies within [lcl, ucl]; an empty series is in control |
| ControlCharts.NaNLimitsInControl | pro/app.py:32-34 | NaN limits never flag a series, whatever its points |
| ControlCharts.Sqrt | pro/app.py:120-121 | `np.sqrt(v)` is NaN exactly when v is negative, and otherwise the non-negative root of v |
| ControlCharts.Shewhart | pro/app.py:103-105 | the limits are exactly `center + 3·spread` and `center - 3·spread`, NaN when the spread is NaN; they enclose the centre for a non-negative spread; the status is `check_control`'s verdict, "In Control" for a NaN spread |
| ControlCharts.XChart | pro/app.py:100-105 | X chart: centre is the mean, lying in [min, max]; limits are exactly mean ± 3·std, ordered, and decide the status |
| ControlCharts.ProportionVarianceSign | pro/app.py:120-121 | `p(1-p)/n` is non-negative iff 0 <= p <= 1 |
| ControlCharts.PRadicandSign | pro/app.py:118-121 | the P chart's radicand is non-negative iff the mean of the data lies in [0, 1] |
| ControlCharts.PChart | pro/app.py:117-122 | P chart: the limits are numbers iff the mean is in [0, 1], and then exactly p̄ ± 3·root and ordered; the status is `check_control`'s verdict against them, so a mean outside [0, 1] (NaN limits) gives "In Control" |
| ControlCharts.ProportionsHaveLimits | pro/app.py:118-122 | data made of proportions in [0, 1] always give the P chart numeric limits |
| ControlCharts.PairRange | pro/app.py:135 | the range of one window `data[i:i+2]` is non-negative |
| ControlCharts.Ranges | pro/app.py:135 | the range list has ceil(n/2) entries, all non-negative |
| ControlCharts.RangeOfPair | pro/app.py:135 | a full pair's range is the absolute difference of its two points; a trailing single point has range 0 |
| ControlCharts.RangesExample | pro/app.py:135 | the ranges of [1, 3, 2, 8, 5, 5] are [2, 6, 0] |
| ControlCharts.RangesCenter | pro/app.py:135-136 | the mean of the ranges is non-negative |
| ControlCharts.RChart | pro/app.py:134-139 | R chart: the ranges are plotted, the centre is their non-negative mean, and the limits are exactly mean ± 3·std of the ranges, ordered, and decide the status |
| ControlCharts.CChart | pro/app.py:151-155 | C chart: the limits are numbers iff the mean is non-negative, and then exactly c̄ ± 3·root and ordered; the status is `check_control`'s verdict against them, so a negative mean (NaN limits) gives "In Control" |
| ControlCharts.CountsHaveLimits | pro/app.py:152-155 | non-negative counts always give the C chart numeric limits |
| InputAssembly.Repeat | pro/app.py:184 | `[x] * n` has max(n, 0) elements, all equal to x |
| InputAssembly.DirectValues | pro/app.py:173-174 | every piece is parsed in order, or the result names the first piece `float` rejects |
| InputAssembly.ParseGroupRoundTrip | pro/app.py:180-182 | an entry written `a-b:f` from separator-free, parsable parts reads back as the group (a, b, f) |
| InputAssembly.ParseGroupShape | pro/app.py:180-182 | conversely, an entry that parses is written `a-b:f` with separator-free parts that `float` and `int` read as its start, end and frequency |
| InputAssembly.IntervalNeedsOneDash | pro/app.py:181 | an interval that does not contain exactly one '-' is rejected |
| InputAssembly.NegativeStartRejected | pro/app.py:181 | "-1-2:3" is rejected whatever the number parsers do, because the interval splits into three pieces |
| InputAssembly.ParseGroups | pro/app.py:178-186 | a successful parse returns one group per entry |
| InputAssembly.ParsedInOrder | pro/app.py:178-182 | the k-th parsed group is the parse of the k-th entry |
| InputAssembly.AllParse | pro/app.py:178-186 | when every entry is well-formed, parsing succeeds |
| InputAssembly.StopsAtFirstMalformed | pro/app.py:178-186 | parsing fails with text t iff t is the first malformed entry |
| InputAssembly.EveryEntryParses | pro/app.py:178-182 | conversely to `AllParse`, a successful parse means that every entry is well-formed |
| InputAssembly.FailurePersists | pro/app.py:185-186 | once an entry is rejected, later entries cannot change the outcome |
| InputAssembly.AcceptStep | pro/app.py:180-184 | a well-formed entry extends the parsed prefix by its group and the sample by its copies |
| InputAssembly.RejectStep | pro/app.py:185-186 | a malformed entry after a well-formed prefix decides the outcome: the whole parse fails with that entry |
| InputAssembly.Expansion | pro/app.py:183-184 | the expansion of the entries has exactly as many values as the positive frequencies add up to |
| InputAssembly.ExpansionExtends | pro/app.py:184 | `extend` only appends: the values of earlier entries stay a prefix |
| InputAssembly.ExpansionValues | pro/app.py:183-184 | every expanded value is the midpoint of an entry with a positive frequency |
| InputAssembly.InvalidGroupMessage | pro/app.py:186 | the error message is the fixed prefix, then the entry's literal text, then the fixed suffix |
| InputAssembly.ExpandGroups | pro/app.py:176-186 | the loop over the entries yields a sample iff every entry is well-formed, and the sample extends the values before it; otherwise its message quotes the first malformed entry; it never rejects a direct value |
| InputAssembly.Assemble | pro/app.py:171-186 | a rejected direct value is a piece of the data field that `float` rejects; a grouped-data message needs the grouped field and quotes its first malformed entry; with neither field given the sample is empty |
| InputAssembly.AssembledShape | pro/app.py:171-186 | with both fields given, the sample starts with the direct values unchanged and has as many more values as the positive frequencies add up to |
| InputAssembly.RejectsFirstMalformed | pro/app.py:176-186 | a malformed entry yields the message quoting the first malformed entry, and no sample |
| InputAssembly.GroupedOnly | pro/app.py:171-177 | with the data field missing or empty and the grouped field given, the sample consists of the expanded entries alone |
| InputAssembly.GroupedExample | pro/app.py:171-184 | "1-2:3;3-4:2", with the data field missing or empty, gives the sample [1.5, 1.5, 1.5, 3.5, 3.5] |
| InputAssembly.AppendGroups | pro/app.py:176-186 | the loop over the entries ends with the direct values plus the expansion of all entries, or with the message for the first malformed one |
| InputAssembly.AssembleSample | pro/app.py:171-186 | the handler's assembly step produces exactly the sample, the grouped-data message, or the rejected direct value that the specification function `Assemble` describes |
| InputAssembly.Results | pro/app.py:166-194 | the handler answers with the grouped-data message, with "An error occurred" for an unparsable value or for fewer than two values (empty: `mean` fails, one value: `stdev` fails), and otherwise with the statistics of the assembled sample |

`InputAssembly.ParseGroup` models `pro/app.py:180-182`. Its contract is stated by two lemmas. `InputAssembly.ParseGroupRoundTrip` says an entry written `a-b:f` parses to its parts. `InputAssembly.ParseGroupShape` says every entry that parses has that form.

`SampleStatistics.Summary` keeps the mode as the structured `ModeReport`, not as the text that `calculate_statistics` returns (lines 24 and 30), so that the "No unique mode" rule can be proved independently of how a number is printed. `SampleStatistics.ModeText` turns a report into that text, with `show` standing for `str`. Neither `CalculateStatistics` nor `Results` applies it.

## Left out

- Plotting (`create_plots`, lines 36-164): the figures and the files written under `static/` are not modelled. The charts' centre, limits and status are modelled as values.
- Results: treats `create_plots` as always succeeding. A plotting failure, such as matplotlib's pie chart rejecting negative values, would turn the results page into the generic "An error occurred" answer. The model does not capture this. In the running program, therefore, the NaN limits of the C chart and those of the P chart with a negative mean are never reached: a negative mean needs a negative value, and `plt.pie` (line 80) rejects negative values before the charts are computed (lines 117 and 152). A P chart with a mean above 1 still gets NaN limits.
- Flask routing, `request.form`, `render_template`, the `index` page and the `print` in the error handler: these are I/O. The form fields are `Option<string>` parameters.
- `pro/qrcod.py` is not part of this model.
- Floating-point arithmetic: every number is a real. Rounding, overflow to infinity, and `float("nan")`/`float("inf")` inputs are not modelled.
- The internals of `float()` and `int()` on strings: they are the parameters `parseFloat` and `parseInt`. Whitespace handling and the accepted number syntax are therefore up to the parser given.
- `np.sqrt`: every chart takes the root as a parameter. The bound `IsRoot(r, v)` says `r >= 0` and `r * r == v`. The solver cannot compute square roots.
- SampleStatistics.SampleVariance: the standard deviation is modelled as its square, the variance, because the square root is not computable here. It is non-negative, as the standard deviation is.
- SampleStatistics.ModeText: renders each mode with a `show` parameter standing in for Python's `str(float)`. The exact digits of that rendering are not modelled.
- InputAssembly.Repeat: huge frequencies are not modelled, because lists are unbounded. In Python, a frequency above `sys.maxsize` raises `OverflowError`, and a smaller one too large for memory raises `MemoryError`. Both end in the generic error.
- SampleStatistics.Multimode: the order of the modes (first occurrence in the sample, as a `Counter` keeps it) is not stated. The contracts state which values are modal and that each is listed once. The order only affects the text `ModeText` renders.
- Charts for an empty sample are never drawn, because the statistics fail first for fewer than two values. The chart functions therefore require a non-empty sample.
