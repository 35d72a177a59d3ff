/**
  How the `results` handler of pro/app.py builds its sample (lines 171-186)
  and what it answers (lines 188-194): comma-separated direct values first,
  then, for each `;`-separated `start-end:frequency` entry in turn, `frequency`
  copies of the interval's midpoint; the first malformed entry stops the loop
  with a message that quotes it.

  Python's `float()` and `int()` on strings are the parameters `parseFloat` and
  `parseInt`: partial parsers that answer None where Python raises ValueError.
 */
module InputAssembly {
  import opened Wrappers
  import opened Text
  import opened SampleStatistics

  /** `if field:` on a form value: present and not the empty string. */
  predicate Given(field: Option<string>)
  {
    field.Some? && field.value != ""
  }

  /** One grouped-data entry `start-end:frequency`. */
  datatype Group = Group(start: real, end: real, frequency: int)

  function Midpoint(g: Group): real
  {
    (g.start + g.end) / 2.0
  }

  /** `[x] * n`: n copies of x, and none at all when n <= 0. */
  function Repeat(x: real, n: int): (r: seq<real>)
    ensures |r| == if n > 0 then n else 0
    ensures forall i :: 0 <= i < |r| ==> r[i] == x
    decreases n
  {
    if n <= 0 then [] else [x] + Repeat(x, n - 1)
  }

  /** What one entry contributes: `[midpoint] * frequency`. */
  function Copies(g: Group): seq<real>
  {
    Repeat(Midpoint(g), g.frequency)
  }

  function CopyCount(g: Group): nat
  {
    if g.frequency > 0 then g.frequency else 0
  }

  // ---------------------------------------------------------------------------
  // Parsing
  // ---------------------------------------------------------------------------

  /** `[float(x) for x in pieces]`: all values, or the first piece `float` rejects. */
  function DirectValues(pieces: seq<string>, parseFloat: string -> Option<real>): (r: Result<seq<real>, string>)
    ensures r.Success? ==>
      (|r.value| == |pieces| && forall k :: 0 <= k < |pieces| ==> parseFloat(pieces[k]) == Some(r.value[k]))
    ensures r.Failure? ==>
      (exists k :: 0 <= k < |pieces| && pieces[k] == r.error && parseFloat(pieces[k]).None? &&
        forall j :: 0 <= j < k ==> parseFloat(pieces[j]).Some?)
  {
    if pieces == [] then Success([])
    else match parseFloat(pieces[0])
      case None => Failure(pieces[0])
      case Some(x) =>
        match DirectValues(pieces[1..], parseFloat)
        case Failure(t) =>
          assert forall k :: 1 <= k < |pieces| ==> pieces[k] == pieces[1..][k - 1];
          Failure(t)
        case Success(rest) =>
          assert forall k :: 1 <= k < |pieces| ==> pieces[k] == pieces[1..][k - 1];
          Success([x] + rest)
  }

  /**
    Lines 180-182: `interval, frequency = group.split(':')`, then
    `map(float, interval.split('-'))` unpacked into two bounds, then
    `int(frequency)`. None wherever one of these raises ValueError.
   */
  function ParseGroup(text: string, parseFloat: string -> Option<real>, parseInt: string -> Option<int>): Option<Group>
  {
    var halves := Split(text, ':');
    if |halves| != 2 then None
    else
      var bounds := Split(halves[0], '-');
      if |bounds| != 2 then None
      else
        match (parseFloat(bounds[0]), parseFloat(bounds[1]), parseInt(halves[1]))
        case (Some(a), Some(b), Some(f)) => Some(Group(a, b, f))
        case _ => None
  }

  /** An entry written as `a-b:f` from separator-free, parsable parts reads back as that group. */
  lemma ParseGroupRoundTrip(a: string, b: string, f: string, parseFloat: string -> Option<real>,
                            parseInt: string -> Option<int>, x: real, y: real, k: int)
    requires '-' !in a && '-' !in b && ':' !in a && ':' !in b && ':' !in f
    requires parseFloat(a) == Some(x) && parseFloat(b) == Some(y) && parseInt(f) == Some(k)
    ensures ParseGroup(a + "-" + b + ":" + f, parseFloat, parseInt) == Some(Group(x, y, k))
  {
    var interval := a + "-" + b;
    assert ':' !in interval;
    SplitJoin([interval, f], ':');
    assert Join([interval, f], [':']) == a + "-" + b + ":" + f;
    SplitJoin([a, b], '-');
    assert Join([a, b], ['-']) == interval;
  }

  /** Conversely, an entry that parses is `a-b:f` with separator-free parts that parse to its group. */
  lemma ParseGroupShape(text: string, parseFloat: string -> Option<real>, parseInt: string -> Option<int>)
    requires ParseGroup(text, parseFloat, parseInt).Some?
    ensures var g := ParseGroup(text, parseFloat, parseInt).value;
            exists a, b, f :: && text == a + "-" + b + ":" + f
                              && '-' !in a && '-' !in b && ':' !in a && ':' !in b && ':' !in f
                              && parseFloat(a) == Some(g.start) && parseFloat(b) == Some(g.end)
                              && parseInt(f) == Some(g.frequency)
  {
    var halves := Split(text, ':');
    var bounds := Split(halves[0], '-');
    JoinSplit(text, ':');
    JoinSplit(halves[0], '-');
    SplitPiecesFree(text, ':');
    SplitPiecesFree(halves[0], '-');
    var a, b, f := bounds[0], bounds[1], halves[1];
    assert halves[1..] == [f] && bounds[1..] == [b];
    assert halves[0] == a + "-" + b;
    assert ':' !in a && ':' !in b by {
      assert forall c :: c in a ==> c in halves[0];
      assert forall c :: c in b ==> c in halves[0];
    }
    assert text == a + "-" + b + ":" + f;
  }

  /** An interval without exactly one '-' is rejected, so a negative start such as "-1-2" never parses. */
  lemma IntervalNeedsOneDash(text: string, parseFloat: string -> Option<real>, parseInt: string -> Option<int>)
    requires |Split(text, ':')| == 2 && multiset(Split(text, ':')[0])['-'] != 1
    ensures ParseGroup(text, parseFloat, parseInt) == None
  {
    SplitCount(Split(text, ':')[0], '-');
  }

  lemma NegativeStartRejected(parseFloat: string -> Option<real>, parseInt: string -> Option<int>)
    ensures ParseGroup("-1-2:3", parseFloat, parseInt) == None
  {
    SplitJoin(["-1-2", "3"], ':');
    assert Join(["-1-2", "3"], [':']) == "-1-2:3";
    assert multiset("-1-2")['-'] == 2;
    IntervalNeedsOneDash("-1-2:3", parseFloat, parseInt);
  }

  /** Every parsed entry in order, or the text of the first entry that does not parse. */
  function ParseGroups(groups: seq<string>, parseFloat: string -> Option<real>, parseInt: string -> Option<int>)
    : (r: Result<seq<Group>, string>)
    ensures r.Success? ==> |r.value| == |groups|
  {
    if groups == [] then Success([])
    else
      var earlier := groups[..|groups| - 1];
      var last := groups[|groups| - 1];
      match ParseGroups(earlier, parseFloat, parseInt)
      case Failure(t) => Failure(t)
      case Success(gs) =>
        match ParseGroup(last, parseFloat, parseInt)
        case None => Failure(last)
        case Some(g) => Success(gs + [g])
  }

  /** A successful parse holds the parsed form of every entry, in entry order. */
  lemma {:induction false} ParsedInOrder(groups: seq<string>, parseFloat: string -> Option<real>,
                                         parseInt: string -> Option<int>, k: int)
    requires ParseGroups(groups, parseFloat, parseInt).Success? && 0 <= k < |groups|
    ensures ParseGroup(groups[k], parseFloat, parseInt) == Some(ParseGroups(groups, parseFloat, parseInt).value[k])
  {
    var earlier := groups[..|groups| - 1];
    if k < |earlier| {
      ParsedInOrder(earlier, parseFloat, parseInt, k);
      assert groups[k] == earlier[k];
    }
  }

  /** Entry k is the first that does not parse. */
  ghost predicate FirstMalformed(groups: seq<string>, k: int, parseFloat: string -> Option<real>,
                                 parseInt: string -> Option<int>)
  {
    && 0 <= k < |groups|
    && ParseGroup(groups[k], parseFloat, parseInt).None?
    && forall j :: 0 <= j < k ==> ParseGroup(groups[j], parseFloat, parseInt).Some?
  }

  /** A failed parse names an entry that is the first malformed one. */
  lemma {:induction false} FailureIsFirstMalformed(groups: seq<string>, t: string,
                                                   parseFloat: string -> Option<real>, parseInt: string -> Option<int>)
    requires ParseGroups(groups, parseFloat, parseInt) == Failure(t)
    ensures exists k :: FirstMalformed(groups, k, parseFloat, parseInt) && groups[k] == t
  {
    var earlier := groups[..|groups| - 1];
    assert forall j :: 0 <= j < |earlier| ==> groups[j] == earlier[j];
    match ParseGroups(earlier, parseFloat, parseInt)
    case Failure(_) =>
      FailureIsFirstMalformed(earlier, t, parseFloat, parseInt);
      var k :| FirstMalformed(earlier, k, parseFloat, parseInt) && earlier[k] == t;
      assert FirstMalformed(groups, k, parseFloat, parseInt);
    case Success(gs) =>
      forall j | 0 <= j < |earlier|
        ensures ParseGroup(groups[j], parseFloat, parseInt).Some?
      {
        ParsedInOrder(earlier, parseFloat, parseInt, j);
      }
      assert FirstMalformed(groups, |earlier|, parseFloat, parseInt);
  }

  /** The first malformed entry is the one a parse of the whole list reports. */
  lemma FirstMalformedFails(groups: seq<string>, k: int, parseFloat: string -> Option<real>, parseInt: string -> Option<int>)
    requires FirstMalformed(groups, k, parseFloat, parseInt)
    ensures ParseGroups(groups, parseFloat, parseInt) == Failure(groups[k])
  {
    var prefix := groups[..k];
    assert forall j :: 0 <= j < k ==> prefix[j] == groups[j];
    AllParse(prefix, parseFloat, parseInt);
    RejectStep(groups, k, ParseGroups(prefix, parseFloat, parseInt).value, parseFloat, parseInt);
  }

  /** Parsing fails with text t exactly when t is the first malformed entry. */
  lemma StopsAtFirstMalformed(groups: seq<string>, t: string,
                              parseFloat: string -> Option<real>, parseInt: string -> Option<int>)
    ensures ParseGroups(groups, parseFloat, parseInt) == Failure(t) <==>
      exists k :: FirstMalformed(groups, k, parseFloat, parseInt) && groups[k] == t
  {
    if ParseGroups(groups, parseFloat, parseInt) == Failure(t) {
      FailureIsFirstMalformed(groups, t, parseFloat, parseInt);
    }
    if exists k :: FirstMalformed(groups, k, parseFloat, parseInt) && groups[k] == t {
      var k :| FirstMalformed(groups, k, parseFloat, parseInt) && groups[k] == t;
      FirstMalformedFails(groups, k, parseFloat, parseInt);
    }
  }

  /** Parsing succeeds when every entry parses. */
  lemma {:induction false} AllParse(groups: seq<string>, parseFloat: string -> Option<real>, parseInt: string -> Option<int>)
    requires forall k :: 0 <= k < |groups| ==> ParseGroup(groups[k], parseFloat, parseInt).Some?
    ensures ParseGroups(groups, parseFloat, parseInt).Success?
  {
    if groups != [] {
      var earlier := groups[..|groups| - 1];
      assert forall j :: 0 <= j < |earlier| ==> groups[j] == earlier[j];
      AllParse(earlier, parseFloat, parseInt);
    }
  }

  /** Extending a successfully parsed prefix by one entry. */
  lemma ParseGroupsStep(groups: seq<string>, i: int, parsed: seq<Group>,
                        parseFloat: string -> Option<real>, parseInt: string -> Option<int>)
    requires 0 <= i < |groups| && ParseGroups(groups[..i], parseFloat, parseInt) == Success(parsed)
    ensures ParseGroup(groups[i], parseFloat, parseInt).None? ==>
      ParseGroups(groups[..i + 1], parseFloat, parseInt) == Failure(groups[i])
    ensures ParseGroup(groups[i], parseFloat, parseInt).Some? ==>
      ParseGroups(groups[..i + 1], parseFloat, parseInt)
        == Success(parsed + [ParseGroup(groups[i], parseFloat, parseInt).value])
  {
    var next := groups[..i + 1];
    assert next[..|next| - 1] == groups[..i];
    assert next[|next| - 1] == groups[i];
  }

  /** A successful parse means that every entry is well-formed. */
  lemma EveryEntryParses(groups: seq<string>, parseFloat: string -> Option<real>, parseInt: string -> Option<int>)
    requires ParseGroups(groups, parseFloat, parseInt).Success?
    ensures forall k :: 0 <= k < |groups| ==> ParseGroup(groups[k], parseFloat, parseInt).Some?
  {
    forall k | 0 <= k < |groups|
      ensures ParseGroup(groups[k], parseFloat, parseInt).Some?
    {
      ParsedInOrder(groups, parseFloat, parseInt, k);
    }
  }

  /** Once a prefix of the entries fails, the whole list fails with the same entry. */
  lemma {:induction false} FailurePersists(groups: seq<string>, i: int,
                                           parseFloat: string -> Option<real>, parseInt: string -> Option<int>)
    requires 0 <= i <= |groups| && ParseGroups(groups[..i], parseFloat, parseInt).Failure?
    ensures ParseGroups(groups, parseFloat, parseInt) == ParseGroups(groups[..i], parseFloat, parseInt)
    decreases |groups| - i
  {
    if i < |groups| {
      var next := groups[..i + 1];
      assert next[..i] == groups[..i];
      assert ParseGroups(next, parseFloat, parseInt) == ParseGroups(groups[..i], parseFloat, parseInt);
      FailurePersists(groups, i + 1, parseFloat, parseInt);
    } else {
      assert groups[..i] == groups;
    }
  }

  // ---------------------------------------------------------------------------
  // Expansion
  // ---------------------------------------------------------------------------

  /** The copies of all entries, appended in entry order. */
  function Expansion(gs: seq<Group>): (r: seq<real>)
    ensures |r| == TotalCopies(gs)
  {
    if gs == [] then [] else Expansion(gs[..|gs| - 1]) + Copies(gs[|gs| - 1])
  }

  function TotalCopies(gs: seq<Group>): nat
  {
    if gs == [] then 0 else TotalCopies(gs[..|gs| - 1]) + CopyCount(gs[|gs| - 1])
  }

  lemma ExpansionStep(gs: seq<Group>, g: Group)
    ensures Expansion(gs + [g]) == Expansion(gs) + Copies(g)
  {
  }

  /** Appending later entries never changes what earlier entries contributed. */
  lemma {:induction false} ExpansionExtends(gs: seq<Group>, j: int)
    requires 0 <= j <= |gs|
    ensures Expansion(gs[..j]) <= Expansion(gs)
    decreases |gs| - j
  {
    if j < |gs| {
      ExpansionExtends(gs, j + 1);
      var next := gs[..j + 1];
      assert next[..j] == gs[..j];
      assert next[..|next| - 1] == gs[..j];
    } else {
      assert gs[..j] == gs;
    }
  }

  /** Every expanded value is the midpoint of some entry with a positive frequency. */
  lemma {:induction false} ExpansionValues(gs: seq<Group>, i: int)
    requires 0 <= i < |Expansion(gs)|
    ensures exists k :: 0 <= k < |gs| && gs[k].frequency > 0 && Expansion(gs)[i] == Midpoint(gs[k])
  {
    var earlier := gs[..|gs| - 1];
    var last := gs[|gs| - 1];
    if i < |Expansion(earlier)| {
      ExpansionValues(earlier, i);
      var k :| 0 <= k < |earlier| && earlier[k].frequency > 0 && Expansion(earlier)[i] == Midpoint(earlier[k]);
      assert gs[k] == earlier[k];
    } else {
      assert Expansion(gs)[i] == Copies(last)[i - |Expansion(earlier)|];
      assert gs[|gs| - 1] == last;
    }
  }

  /** One accepted entry keeps the loop's invariant for the extended prefix. */
  lemma AcceptStep(groups: seq<string>, i: int, parsed: seq<Group>, g: Group,
                   parseFloat: string -> Option<real>, parseInt: string -> Option<int>)
    requires 0 <= i < |groups| && ParseGroups(groups[..i], parseFloat, parseInt) == Success(parsed)
    requires ParseGroup(groups[i], parseFloat, parseInt) == Some(g)
    ensures ParseGroups(groups[..i + 1], parseFloat, parseInt) == Success(parsed + [g])
    ensures Expansion(parsed + [g]) == Expansion(parsed) + Copies(g)
  {
    ParseGroupsStep(groups, i, parsed, parseFloat, parseInt);
    ExpansionStep(parsed, g);
  }

  /** One rejected entry decides the answer for the whole list. */
  lemma RejectStep(groups: seq<string>, i: int, parsed: seq<Group>,
                   parseFloat: string -> Option<real>, parseInt: string -> Option<int>)
    requires 0 <= i < |groups| && ParseGroups(groups[..i], parseFloat, parseInt) == Success(parsed)
    requires ParseGroup(groups[i], parseFloat, parseInt).None?
    ensures ParseGroups(groups, parseFloat, parseInt) == Failure(groups[i])
  {
    ParseGroupsStep(groups, i, parsed, parseFloat, parseInt);
    FailurePersists(groups, i + 1, parseFloat, parseInt);
  }

  // ---------------------------------------------------------------------------
  // The sample `results` analyses
  // ---------------------------------------------------------------------------

  const MESSAGE_PREFIX := "Invalid format in grouped data: "
  const MESSAGE_SUFFIX := ". Expected format is interval:frequency (e.g., 1-2:3)."

  /** Line 186: the answer for a malformed entry, quoting the entry's literal text. */
  function InvalidGroupMessage(group: string): (m: string)
    ensures |m| == |MESSAGE_PREFIX| + |group| + |MESSAGE_SUFFIX|
    ensures m[..|MESSAGE_PREFIX|] == MESSAGE_PREFIX
    ensures m[|MESSAGE_PREFIX|..|MESSAGE_PREFIX| + |group|] == group
    ensures m[|MESSAGE_PREFIX| + |group|..] == MESSAGE_SUFFIX
  {
    MESSAGE_PREFIX + group + MESSAGE_SUFFIX
  }

  datatype Assembly =
    | Assembled(sample: seq<real>)   // the list `data` handed to calculate_statistics
    | BadGroup(message: string)      // the early return of line 186
    | BadValue(text: string)         // a direct value float() rejects; raised to the outer handler

  /** What the grouped-data loop yields after the direct values `values`. */
  function ExpandGroups(values: seq<real>, groups: seq<string>,
                        parseFloat: string -> Option<real>, parseInt: string -> Option<int>): (r: Assembly)
    ensures !r.BadValue?
    ensures r.Assembled? <==> forall k :: 0 <= k < |groups| ==> ParseGroup(groups[k], parseFloat, parseInt).Some?
    ensures r.Assembled? ==> values <= r.sample
    ensures r.BadGroup? ==>
      exists k :: FirstMalformed(groups, k, parseFloat, parseInt) && r.message == InvalidGroupMessage(groups[k])
  {
    match ParseGroups(groups, parseFloat, parseInt)
    case Failure(t) =>
      FailureIsFirstMalformed(groups, t, parseFloat, parseInt);
      BadGroup(InvalidGroupMessage(t))
    case Success(gs) =>
      EveryEntryParses(groups, parseFloat, parseInt);
      Assembled(values + Expansion(gs))
  }

  /** What lines 171-186 produce from the two form fields. */
  function Assemble(dataInput: Option<string>, groupedInput: Option<string>,
                    parseFloat: string -> Option<real>, parseInt: string -> Option<int>): (r: Assembly)
    ensures r.BadValue? ==> Given(dataInput) && r.text in Split(dataInput.value, ',') && parseFloat(r.text).None?
    ensures r.BadGroup? ==>
      (Given(groupedInput) &&
       exists k :: FirstMalformed(Split(groupedInput.value, ';'), k, parseFloat, parseInt)
                && r.message == InvalidGroupMessage(Split(groupedInput.value, ';')[k]))
    ensures !Given(dataInput) && !Given(groupedInput) ==> r == Assembled([])
  {
    var direct := if Given(dataInput) then DirectValues(Split(dataInput.value, ','), parseFloat) else Success([]);
    match direct
    case Failure(t) => BadValue(t)
    case Success(values) =>
      if !Given(groupedInput) then Assembled(values)
      else ExpandGroups(values, Split(groupedInput.value, ';'), parseFloat, parseInt)
  }

  /**
    A sample assembled from both fields starts with the direct values, unchanged,
    followed by exactly as many midpoints as the entries' positive frequencies add up to.
   */
  lemma AssembledShape(dataInput: Option<string>, groupedInput: Option<string>,
                       parseFloat: string -> Option<real>, parseInt: string -> Option<int>)
    requires Given(dataInput) && Given(groupedInput)
    requires Assemble(dataInput, groupedInput, parseFloat, parseInt).Assembled?
    ensures var direct := DirectValues(Split(dataInput.value, ','), parseFloat);
            var groups := ParseGroups(Split(groupedInput.value, ';'), parseFloat, parseInt);
            var sample := Assemble(dataInput, groupedInput, parseFloat, parseInt).sample;
            && direct.Success? && groups.Success?
            && |direct.value| == |Split(dataInput.value, ',')|
            && sample[..|direct.value|] == direct.value
            && |sample| == |direct.value| + TotalCopies(groups.value)
  {
  }

  /** A malformed entry ends assembly with the message for the first such entry, and no sample. */
  lemma RejectsFirstMalformed(dataInput: Option<string>, groupedInput: Option<string>,
                              parseFloat: string -> Option<real>, parseInt: string -> Option<int>, k: int)
    requires Given(groupedInput)
    requires !Given(dataInput) || DirectValues(Split(dataInput.value, ','), parseFloat).Success?
    requires FirstMalformed(Split(groupedInput.value, ';'), k, parseFloat, parseInt)
    ensures Assemble(dataInput, groupedInput, parseFloat, parseInt)
         == BadGroup(InvalidGroupMessage(Split(groupedInput.value, ';')[k]))
  {
    FirstMalformedFails(Split(groupedInput.value, ';'), k, parseFloat, parseInt);
  }

  /** With only the grouped field given (the other missing or empty), the sample is the expansion of its entries alone. */
  lemma GroupedOnly(dataInput: Option<string>, grouped: string,
                    parseFloat: string -> Option<real>, parseInt: string -> Option<int>)
    requires !Given(dataInput) && grouped != ""
    ensures Assemble(dataInput, Some(grouped), parseFloat, parseInt)
         == ExpandGroups([], Split(grouped, ';'), parseFloat, parseInt)
  {
  }

  /** Lines 178-186: extend `data` one entry at a time, stopping at the first malformed entry. */
  method AppendGroups(data: seq<real>, groups: seq<string>,
                      parseFloat: string -> Option<real>, parseInt: string -> Option<int>) returns (r: Assembly)
    ensures r == ExpandGroups(data, groups, parseFloat, parseInt)
  {
    var acc := data;
    ghost var parsed: seq<Group> := [];
    var i := 0;
    while i < |groups|
      invariant 0 <= i <= |groups|
      invariant ParseGroups(groups[..i], parseFloat, parseInt) == Success(parsed)
      invariant acc == data + Expansion(parsed)
    {
      var group := groups[i];
      var g := ParseGroup(group, parseFloat, parseInt);
      if g.None? {
        RejectStep(groups, i, parsed, parseFloat, parseInt);
        return BadGroup(InvalidGroupMessage(group));
      }
      var midpoint := (g.value.start + g.value.end) / 2.0;
      AcceptStep(groups, i, parsed, g.value, parseFloat, parseInt);
      acc := acc + Repeat(midpoint, g.value.frequency);
      parsed := parsed + [g.value];
      i := i + 1;
    }
    assert groups[..i] == groups;
    return Assembled(acc);
  }

  /** Lines 171-186: the direct values, then the grouped entries when that field is given. */
  method AssembleSample(dataInput: Option<string>, groupedInput: Option<string>,
                        parseFloat: string -> Option<real>, parseInt: string -> Option<int>) returns (r: Assembly)
    ensures r == Assemble(dataInput, groupedInput, parseFloat, parseInt)
  {
    var data: seq<real> := [];
    if Given(dataInput) {
      var direct := DirectValues(Split(dataInput.value, ','), parseFloat);
      if direct.Failure? {
        return BadValue(direct.error);
      }
      data := direct.value;
    }
    if Given(groupedInput) {
      r := AppendGroups(data, Split(groupedInput.value, ';'), parseFloat, parseInt);
    } else {
      r := Assembled(data);
    }
  }

  // ---------------------------------------------------------------------------
  // The example of the input form: "1-2:3;3-4:2"
  // ---------------------------------------------------------------------------

  lemma ExampleSplit()
    ensures Split("1-2:3;3-4:2", ';') == ["1-2:3", "3-4:2"]
  {
    SplitJoin(["1-2:3", "3-4:2"], ';');
    assert Join(["1-2:3", "3-4:2"], [';']) == "1-2:3;3-4:2";
  }

  /** A one-character-per-part entry parses as its parts. */
  lemma ExampleEntry(text: string, a: char, b: char, f: char, parseFloat: string -> Option<real>,
                     parseInt: string -> Option<int>, x: real, y: real, k: int)
    requires text == [a, '-', b, ':', f] && a !in "-:" && b !in "-:" && f != ':'
    requires parseFloat([a]) == Some(x) && parseFloat([b]) == Some(y) && parseInt([f]) == Some(k)
    ensures ParseGroup(text, parseFloat, parseInt) == Some(Group(x, y, k))
  {
    assert text == [a] + "-" + [b] + ":" + [f];
    ParseGroupRoundTrip([a], [b], [f], parseFloat, parseInt, x, y, k);
  }

  /** Parsers that read the digits used in the example below as the numbers they denote. */
  predicate ReadsDigits(parseFloat: string -> Option<real>, parseInt: string -> Option<int>)
  {
    && parseFloat("1") == Some(1.0) && parseFloat("2") == Some(2.0)
    && parseFloat("3") == Some(3.0) && parseFloat("4") == Some(4.0)
    && parseInt("3") == Some(3) && parseInt("2") == Some(2)
  }

  lemma ExampleEntries(parseFloat: string -> Option<real>, parseInt: string -> Option<int>)
    requires ReadsDigits(parseFloat, parseInt)
    ensures ParseGroup("1-2:3", parseFloat, parseInt) == Some(Group(1.0, 2.0, 3))
    ensures ParseGroup("3-4:2", parseFloat, parseInt) == Some(Group(3.0, 4.0, 2))
  {
    ExampleEntry("1-2:3", '1', '2', '3', parseFloat, parseInt, 1.0, 2.0, 3);
    ExampleEntry("3-4:2", '3', '4', '2', parseFloat, parseInt, 3.0, 4.0, 2);
  }

  /** Two well-formed entries parse as their two groups, in order. */
  lemma TwoGroups(groups: seq<string>, g1: Group, g2: Group,
                  parseFloat: string -> Option<real>, parseInt: string -> Option<int>)
    requires |groups| == 2
    requires ParseGroup(groups[0], parseFloat, parseInt) == Some(g1)
    requires ParseGroup(groups[1], parseFloat, parseInt) == Some(g2)
    ensures ParseGroups(groups, parseFloat, parseInt) == Success([g1, g2])
  {
    assert groups[..0] == [];
    ParseGroupsStep(groups, 0, [], parseFloat, parseInt);
    assert [] + [g1] == [g1];
    ParseGroupsStep(groups, 1, [g1], parseFloat, parseInt);
    assert groups[..2] == groups && [g1] + [g2] == [g1, g2];
  }

  lemma ExampleExpansion()
    ensures Expansion([Group(1.0, 2.0, 3), Group(3.0, 4.0, 2)]) == [1.5, 1.5, 1.5, 3.5, 3.5]
  {
  }

  lemma ExampleParsed(parseFloat: string -> Option<real>, parseInt: string -> Option<int>)
    requires ReadsDigits(parseFloat, parseInt)
    ensures ParseGroups(Split("1-2:3;3-4:2", ';'), parseFloat, parseInt)
         == Success([Group(1.0, 2.0, 3), Group(3.0, 4.0, 2)])
  {
    ExampleSplit();
    ExampleEntries(parseFloat, parseInt);
    TwoGroups(["1-2:3", "3-4:2"], Group(1.0, 2.0, 3), Group(3.0, 4.0, 2), parseFloat, parseInt);
  }

  lemma ExampleExpanded(parseFloat: string -> Option<real>, parseInt: string -> Option<int>)
    requires ReadsDigits(parseFloat, parseInt)
    ensures ExpandGroups([], Split("1-2:3;3-4:2", ';'), parseFloat, parseInt) == Assembled([1.5, 1.5, 1.5, 3.5, 3.5])
  {
    ExampleParsed(parseFloat, parseInt);
    ExampleExpansion();
    var sample := [1.5, 1.5, 1.5, 3.5, 3.5];
    assert [] + sample == sample;
  }

  /** The grouped input "1-2:3;3-4:2" alone expands to [1.5, 1.5, 1.5, 3.5, 3.5]. */
  lemma GroupedExample(dataInput: Option<string>, grouped: string,
                       parseFloat: string -> Option<real>, parseInt: string -> Option<int>)
    requires !Given(dataInput) && grouped == "1-2:3;3-4:2" && ReadsDigits(parseFloat, parseInt)
    ensures Assemble(dataInput, Some(grouped), parseFloat, parseInt) == Assembled([1.5, 1.5, 1.5, 3.5, 3.5])
  {
    GroupedOnly(dataInput, grouped, parseFloat, parseInt);
    ExampleExpanded(parseFloat, parseInt);
  }

  // ---------------------------------------------------------------------------
  // The answer of `results`
  // ---------------------------------------------------------------------------

  /** What the outer `except Exception` reports as "An error occurred: ...". */
  datatype Cause = NotAFloat(text: string) | TooFewValues(error: StatisticsError)

  datatype Response =
    | Page(summary: Summary)              // render_template('results.html', ...)
    | GroupedDataError(message: string)   // the message of line 186
    | GeneralError(cause: Cause)          // the message of line 194

  /** Lines 171-194 without the charts: assemble the sample, then summarise it or report why not. */
  method Results(dataInput: Option<string>, groupedInput: Option<string>,
                 parseFloat: string -> Option<real>, parseInt: string -> Option<int>) returns (resp: Response)
    ensures match Assemble(dataInput, groupedInput, parseFloat, parseInt)
      case BadGroup(m) => resp == GroupedDataError(m)
      case BadValue(t) => resp == GeneralError(NotAFloat(t))
      case Assembled(sample) =>
        if |sample| >= 2 then resp.Page? && resp.summary == CalculateStatistics(sample).value
        else resp == GeneralError(TooFewValues(if |sample| == 0 then MeanOfEmpty else StdevOfOne))
  {
    var assembled := AssembleSample(dataInput, groupedInput, parseFloat, parseInt);
    match assembled
    case BadGroup(m) =>
      resp := GroupedDataError(m);
    case BadValue(t) =>
      resp := GeneralError(NotAFloat(t));
    case Assembled(sample) =>
      var summary := CalculateStatistics(sample);
      match summary
      case Failure(e) =>
        resp := GeneralError(TooFewValues(e));
      case Success(s) =>
        resp := Page(s);
  }
}
