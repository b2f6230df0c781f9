/**
  The record page's presenter: the validation chain that turns the form's
  inputs into either an error message or a `rosbag record` command, the
  `isCommandValid` flag it sets, and the guard that refuses to start a
  recording until a command has been built.

  Spawning and signalling the recorder process are not modelled: starting
  reports the command text that would be spawned, stopping only clears the
  recording flag.
 */
module RecordPresenter {
  import opened Maybe
  import opened RosCommandGenerator

  const NoTopicsMessage := "No topics selected"
  const NoPrefixMessage := "No prefix entered"
  const InvalidPrefixMessage := "Invalid prefix, should be alphanumeric"
  const InvalidDurationMessage :=
    "Invalid duration format, should be number or number followed with m or h"
  const InvalidNumberMessage := "Invalid number format, should be number"
  const BuildFirstMessage := "Build command first"

  /** What the view holds when a command is requested: checked topics and the three entries. */
  datatype Form = Form(
    checkedTopics: seq<string>,
    prefix: string,
    durationOption: string,
    numberOption: string)

  predicate IsDigit(c: char) {
    '0' <= c <= '9'
  }

  /**
    How far a greedy character class `[…]+` reaches from the start of `s`:
    the length of the longest prefix whose characters all satisfy `accept`.
   */
  function LeadingRun(s: string, accept: char -> bool): (n: nat)
    ensures n <= |s|
    ensures forall i :: 0 <= i < n ==> accept(s[i])
    ensures n < |s| ==> !accept(s[n])
    decreases |s|
  {
    if |s| == 0 || !accept(s[0]) then 0 else 1 + LeadingRun(s[1..], accept)
  }

  /** `re.match(r"\d+$", s)`: one or more digits and nothing else. */
  predicate IsNumber(s: string)
    // the greedy `\d+` matches something and then stands at the end
    ensures IsNumber(s) <==> 0 < LeadingRun(s, IsDigit) == |s|
  {
    |s| > 0 && forall i :: 0 <= i < |s| ==> IsDigit(s[i])
  }

  /** `re.match(r"\d+$", s) or re.match(r"\d+[mhMH]$", s)`: digits, optionally one unit letter. */
  predicate IsDuration(s: string)
    // the greedy `\d+` matches something and is followed by the end, or by one unit letter and the end
    ensures IsDuration(s) <==>
      var n := LeadingRun(s, IsDigit);
      0 < n && (n == |s| || (n == |s| - 1 && s[n] in "mhMH"))
  {
    IsNumber(s) || (|s| >= 2 && IsNumber(s[..|s| - 1]) && s[|s| - 1] in "mhMH")
  }

  predicate IsPrefixChar(c: char) {
    'a' <= c <= 'z' || 'A' <= c <= 'Z' || IsDigit(c) || c == '_' || c == '.' || c == '-'
  }

  /** `re.match(r"^[a-zA-Z0-9_.-]+$", s)` */
  predicate IsValidPrefix(s: string)
    // the greedy class run matches something and then stands at the end
    ensures IsValidPrefix(s) <==> 0 < LeadingRun(s, IsPrefixChar) == |s|
  {
    |s| > 0 && forall i :: 0 <= i < |s| ==> IsPrefixChar(s[i])
  }

  /** Every check of the chain passes. */
  predicate Acceptable(form: Form) {
    && |form.checkedTopics| > 0
    && IsValidPrefix(form.prefix)
    && (form.durationOption == "" || IsDuration(form.durationOption))
    && (form.numberOption == "" || IsNumber(form.numberOption))
  }

  /**
    The options dictionary built from the entries: `--duration` when the
    duration entry is filled in, then `--limit` when the number entry is.
   */
  function RecordOptions(form: Form): (options: seq<Flag>)
    // a dictionary: each key at most once
    ensures |options| == (if form.durationOption != "" then 1 else 0)
                       + (if form.numberOption != "" then 1 else 0)
    ensures Flag("--duration", form.durationOption) in options <==> form.durationOption != ""
    ensures Flag("--limit", form.numberOption) in options <==> form.numberOption != ""
    ensures forall i :: 0 <= i < |options| ==>
      options[i] == Flag("--duration", form.durationOption)
      || options[i] == Flag("--limit", form.numberOption)
    ensures form.durationOption != "" && form.numberOption != "" ==>
      options == [Flag("--duration", form.durationOption), Flag("--limit", form.numberOption)]
  {
    (if form.durationOption != "" then [Flag("--duration", form.durationOption)] else [])
    + (if form.numberOption != "" then [Flag("--limit", form.numberOption)] else [])
  }

  /**
    `handleGenerateCommand`'s chain of checks, in order: topics, empty
    prefix, prefix characters, duration, number. The first failing check
    gives the message; when all pass, the generator's command.
   */
  function GenerateCommand(bagDir: string, form: Form): (r: Result<string, string>)
    ensures r.Ok? <==> Acceptable(form)
    ensures r.Ok? ==>
      r.value == RecordCommand(bagDir, form.checkedTopics, form.prefix, RecordOptions(form))
    ensures |form.checkedTopics| == 0 ==> r == Err(NoTopicsMessage)
    ensures |form.checkedTopics| > 0 && form.prefix == "" ==> r == Err(NoPrefixMessage)
    ensures |form.checkedTopics| > 0 && form.prefix != "" && !IsValidPrefix(form.prefix)
      ==> r == Err(InvalidPrefixMessage)
    ensures |form.checkedTopics| > 0 && IsValidPrefix(form.prefix)
      && form.durationOption != "" && !IsDuration(form.durationOption)
      ==> r == Err(InvalidDurationMessage)
    ensures |form.checkedTopics| > 0 && IsValidPrefix(form.prefix)
      && (form.durationOption == "" || IsDuration(form.durationOption))
      && form.numberOption != "" && !IsNumber(form.numberOption)
      ==> r == Err(InvalidNumberMessage)
  {
    if |form.checkedTopics| == 0 then Err(NoTopicsMessage)
    else if form.prefix == "" then Err(NoPrefixMessage)
    else if !IsValidPrefix(form.prefix) then Err(InvalidPrefixMessage)
    else if form.durationOption != "" && !IsDuration(form.durationOption) then
      Err(InvalidDurationMessage)
    else if form.numberOption != "" && !IsNumber(form.numberOption) then
      Err(InvalidNumberMessage)
    else
      Ok(RecordCommand(bagDir, form.checkedTopics, form.prefix, RecordOptions(form)))
  }

  /** Two sample prefixes: one with a space and a `!`, one using every punctuation mark allowed. */
  lemma PrefixExamples(rejected: string, accepted: string)
    requires rejected == "bad name!" && accepted == "bad_name-1.2"
    ensures !IsValidPrefix(rejected)
    ensures IsValidPrefix(accepted)
  {
    assert !IsPrefixChar(rejected[3]);
  }

  /** The duration entry's examples, and unit letters that are refused. */
  lemma DurationExamples()
    ensures IsDuration("30") && IsDuration("1m") && IsDuration("2h") && IsDuration("5H")
    ensures !IsDuration("m") && !IsDuration("1mh") && !IsDuration("1s") && !IsDuration("1.5")
  {
    assert "1m"[..1] == "1";
    assert "2h"[..1] == "2";
    assert "5H"[..1] == "5";
    assert "1mh"[..2] == "1m";
    assert !IsDigit("1mh"[..2][1]);
    assert !IsDigit("1s"[1]);
    assert "1.5"[..2] == "1.";
    assert !IsDigit("1.5"[..2][1]);
  }

  /**
    A generated command, split at spaces, is the argument vector: the output
    argument is the directory followed by the prefix, then `--duration` and
    `--limit` with their values when given, then the checked topics.
   */
  lemma GeneratedArguments(bagDir: string, form: Form)
    requires GenerateCommand(bagDir, form).Ok?
    requires ' ' !in bagDir
    requires forall i :: 0 <= i < |form.checkedTopics| ==> ' ' !in form.checkedTopics[i]
    ensures Text.Split(GenerateCommand(bagDir, form).value, ' ')
         == ["rosbag", "record", "-o", bagDir + form.prefix]
            + FlagWords(RecordOptions(form)) + form.checkedTopics
  {
    var options := RecordOptions(form);
    OptionsSpaceFree(form);
    NumberSpaceFree(form.prefix);
    ArgvRoundTrip(bagDir, form.checkedTopics, form.prefix, options);
  }

  /** Text made only of digits, or only of prefix characters, holds no space. */
  lemma NumberSpaceFree(s: string)
    requires IsNumber(s) || IsValidPrefix(s)
    ensures ' ' !in s
  {
  }

  /** A checked duration, digits with at most one unit letter, holds no space. */
  lemma DurationSpaceFree(d: string)
    requires IsDuration(d)
    ensures ' ' !in d
  {
    if !IsNumber(d) {
      var digits := d[..|d| - 1];
      NumberSpaceFree(digits);
      assert d == digits + [d[|d| - 1]];
    }
  }

  /** The options of an accepted form hold no space in their keys or values. */
  lemma OptionsSpaceFree(form: Form)
    requires Acceptable(form)
    ensures forall i :: 0 <= i < |RecordOptions(form)| ==>
      ' ' !in RecordOptions(form)[i].key && ' ' !in RecordOptions(form)[i].value
  {
    var d, n := form.durationOption, form.numberOption;
    assert d != "" ==> ' ' !in d by {
      if d != "" {
        DurationSpaceFree(d);
      }
    }
    assert n != "" ==> ' ' !in n by {
      if n != "" {
        NumberSpaceFree(n);
      }
    }
    var options := RecordOptions(form);
    forall i | 0 <= i < |options|
      ensures ' ' !in options[i].key && ' ' !in options[i].value
    {
      if options[i] == Flag("--duration", d) {
        assert ' ' !in "--duration";
      } else {
        assert options[i] == Flag("--limit", n);
        assert ' ' !in "--limit";
      }
    }
  }

  /** The presenter's state: the valid flag, whether a recording runs, and the command text box. */
  datatype Session = Session(isCommandValid: bool, recording: bool, commandBox: string)

  /** A fresh presenter: nothing built, nothing recording, an empty command box. */
  const Initial := Session(false, false, "")

  /**
    `handleGenerateCommand`: the flag is cleared first and set only when the
    whole chain passes; the command box shows the command or the message.
   */
  function HandleGenerateCommand(bagDir: string, s: Session, form: Form): (s': Session)
    ensures s'.recording == s.recording
    ensures s'.isCommandValid <==> Acceptable(form)
    ensures s'.isCommandValid ==> GenerateCommand(bagDir, form) == Ok(s'.commandBox)
    ensures !s'.isCommandValid ==> GenerateCommand(bagDir, form) == Err(s'.commandBox)
  {
    match GenerateCommand(bagDir, form)
    case Err(message) => s.(isCommandValid := false, commandBox := message)
    case Ok(command) => s.(isCommandValid := true, commandBox := command)
  }

  /** A presenter call's resulting state and the command it spawned, if any. */
  datatype Reaction = Reaction(session: Session, spawned: Option<string>)

  /**
    `handleStartRecord`: without a valid command it only reports
    "Build command first"; otherwise it spawns the command in the box and
    the recording begins.
   */
  function HandleStartRecord(s: Session): (r: Reaction)
    ensures r.spawned.Some? <==> s.isCommandValid
    ensures r.spawned.Some? ==> r.spawned.value == s.commandBox && r.session.recording
    ensures !s.isCommandValid ==>
      r.session.commandBox == BuildFirstMessage
      && !r.session.isCommandValid && r.session.recording == s.recording
    ensures r.session.isCommandValid == s.isCommandValid
    ensures s.isCommandValid ==> r.session.commandBox == s.commandBox
  {
    if !s.isCommandValid then Reaction(s.(commandBox := BuildFirstMessage), None)
    else Reaction(s.(recording := true), Some(s.commandBox))
  }

  /** `handleStopRecord`, without the signalling: the recording ends, the command stays staged. */
  function HandleStopRecord(s: Session): (s': Session)
    ensures !s'.recording
    ensures s'.isCommandValid == s.isCommandValid && s'.commandBox == s.commandBox
  {
    s.(recording := false)
  }

  /** A user action on the record page. */
  datatype Event = GenerateEvent(form: Form) | StartEvent | StopEvent

  /**
    One action. The view disables the start button while recording and
    keeps the stop button disabled until a recording starts, so those
    presses are ignored.
   */
  function Step(bagDir: string, s: Session, e: Event): (r: Reaction)
    // only a start press while nothing records spawns, and a recording then runs
    ensures r.spawned.Some? ==> e.StartEvent? && !s.recording && r.session.recording
    // pressing a disabled button changes nothing
    ensures e.StartEvent? && s.recording ==> r == Reaction(s, None)
    ensures e.StopEvent? && !s.recording ==> r == Reaction(s, None)
    ensures e.StopEvent? ==> !r.session.recording
    ensures e.GenerateEvent? ==> r.spawned.None? && r.session.recording == s.recording
    // an enabled button runs its handler
    ensures e.GenerateEvent? ==> r.session == HandleGenerateCommand(bagDir, s, e.form)
    ensures e.StartEvent? && !s.recording ==> r == HandleStartRecord(s)
    ensures e.StopEvent? && s.recording ==> r == Reaction(HandleStopRecord(s), None)
  {
    match e
    case GenerateEvent(form) => Reaction(HandleGenerateCommand(bagDir, s, form), None)
    case StartEvent => if s.recording then Reaction(s, None) else HandleStartRecord(s)
    case StopEvent => if s.recording then Reaction(HandleStopRecord(s), None) else Reaction(s, None)
  }

  /** The final state of a sequence of actions and every command spawned along the way. */
  datatype Trace = Trace(last: Session, spawned: seq<string>)

  function Run(bagDir: string, s: Session, events: seq<Event>): Trace
    decreases |events|
  {
    if |events| == 0 then Trace(s, [])
    else
      var r := Step(bagDir, s, events[0]);
      var rest := Run(bagDir, r.session, events[1..]);
      Trace(rest.last, (if r.spawned.Some? then [r.spawned.value] else []) + rest.spawned)
  }

  /** The number of stop presses in a sequence of actions. */
  function Stops(events: seq<Event>): nat
    decreases |events|
  {
    if |events| == 0 then 0 else (if events[0].StopEvent? then 1 else 0) + Stops(events[1..])
  }

  function Idle(s: Session): nat {
    if s.recording then 0 else 1
  }

  /**
    Recordings never overlap: every recorder spawned after the first one is
    preceded by a stop press, so the spawns are bounded by the stops plus one
    when nothing was recording at the start.
   */
  lemma {:induction false} RunSpawnsBetweenStops(bagDir: string, s: Session, events: seq<Event>)
    ensures |Run(bagDir, s, events).spawned| + Idle(Run(bagDir, s, events).last)
         <= Stops(events) + Idle(s)
    decreases |events|
  {
    if |events| > 0 {
      var r := Step(bagDir, s, events[0]);
      RunSpawnsBetweenStops(bagDir, r.session, events[1..]);
    }
  }

  /** The text is a command the validation chain produced for some form. */
  ghost predicate IsGenerated(bagDir: string, command: string) {
    exists form :: GenerateCommand(bagDir, form) == Ok(command)
  }

  /** Whenever the flag is set, the command box holds a generated command. */
  ghost predicate Staged(bagDir: string, s: Session) {
    s.isCommandValid ==> IsGenerated(bagDir, s.commandBox)
  }

  /** One action keeps the box staged, and anything it spawns is a generated command. */
  lemma StepKeepsStaged(bagDir: string, s: Session, e: Event)
    requires Staged(bagDir, s)
    ensures Staged(bagDir, Step(bagDir, s, e).session)
    ensures Step(bagDir, s, e).spawned.Some? ==> IsGenerated(bagDir, Step(bagDir, s, e).spawned.value)
  {
    match e
    case GenerateEvent(form) =>
      var s' := HandleGenerateCommand(bagDir, s, form);
      if s'.isCommandValid {
        assert GenerateCommand(bagDir, form) == Ok(s'.commandBox);
      }
    case StartEvent =>
    case StopEvent =>
  }

  /**
    Starting from a fresh presenter, whatever the user does, every command
    ever spawned is one the validation chain accepted and the generator
    built, and the valid flag never outlives a rejected input.
   */
  lemma {:induction false} RunSpawnsOnlyGenerated(bagDir: string, s: Session, events: seq<Event>)
    requires Staged(bagDir, s)
    ensures Staged(bagDir, Run(bagDir, s, events).last)
    ensures forall i :: 0 <= i < |Run(bagDir, s, events).spawned| ==>
      IsGenerated(bagDir, Run(bagDir, s, events).spawned[i])
    decreases |events|
  {
    if |events| > 0 {
      var r := Step(bagDir, s, events[0]);
      StepKeepsStaged(bagDir, s, events[0]);
      RunSpawnsOnlyGenerated(bagDir, r.session, events[1..]);
    }
  }

  /** A fresh presenter is staged, so the above applies from the start. */
  lemma InitialStaged(bagDir: string, events: seq<Event>)
    ensures forall i :: 0 <= i < |Run(bagDir, Initial, events).spawned| ==>
      IsGenerated(bagDir, Run(bagDir, Initial, events).spawned[i])
  {
    RunSpawnsOnlyGenerated(bagDir, Initial, events);
  }

  /** A generated command begins with the base invocation and the bag directory, then a valid prefix. */
  lemma GeneratedShape(bagDir: string, command: string)
    requires IsGenerated(bagDir, command)
    ensures "rosbag record -o " + bagDir <= command
    ensures exists prefix :: IsValidPrefix(prefix) && "rosbag record -o " + bagDir + prefix <= command
  {
    var form :| GenerateCommand(bagDir, form) == Ok(command);
    var head := "rosbag record -o " + bagDir;
    assert command == RecordCommand(bagDir, form.checkedTopics, form.prefix, RecordOptions(form));
    CommandBegins(bagDir, form.checkedTopics, form.prefix, RecordOptions(form));
    assert head <= head + form.prefix;
    assert IsValidPrefix(form.prefix);
  }
}
