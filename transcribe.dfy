/**
 * transcribe_file: the command line for one media file, built from the
 * WhisperParams section (forwarded flags) and the General section (output
 * format), and what the call does with it: report it in a dry run, or hand
 * it to the process runner.
 */
module Transcribe {
  import opened Wrappers
  import opened Text
  import opened Config

  const EXECUTABLE: string := "./whisper_cpp"

  /** The keys forwarded as "--key value"; every other key is a boolean flag */
  const VALUE_KEYS: seq<string> := ["model", "language", "threads", "prompt", "offset_t_ms",
                                   "offset_n", "duration_ms", "max_context", "max_len", "word_thold"]

  const DEFAULT_OUTPUT_FORMAT: string := "txt"

  /** The ValueError getboolean raises; nothing in transcribe_file catches it */
  datatype Error = NotABoolean(value: string)

  /** Where a successful call ends: the line a dry run reports, or the
      command handed to the process runner (which is not modelled). */
  datatype Action = DryRunReport(line: string) | Execute(command: seq<string>)

  /** key in VALUE_KEYS: the key is forwarded with its value */
  predicate IsValueKey(key: string) {
    ListContains(VALUE_KEYS, key)
  }

  /** Python's "key in list" as it runs: the elements compared with the key
      front to back */
  predicate ListContains(list: seq<string>, key: string) {
    list != [] && (list[0] == key || ListContains(list[1..], key))
  }

  /** The front-to-back scan finds the key exactly when it is an element */
  lemma {:induction false} ListContainsIff(list: seq<string>, key: string)
    ensures ListContains(list, key) <==> key in list
  {
    if list != [] {
      ListContainsIff(list[1..], key);
      assert list == [list[0]] + list[1..];
    }
  }

  /** A key is a value key exactly when it is one of the ten listed keys */
  lemma IsValueKeyIff(key: string)
    ensures IsValueKey(key) <==> key in VALUE_KEYS
  {
    ListContainsIff(VALUE_KEYS, key);
  }

  /** A key may be forwarded: it takes a value, or its value parses as a boolean */
  predicate Forwardable(key: string, value: string) {
    IsValueKey(key) || GetBoolean(value).Some?
  }

  /** "--" followed by the key with every underscore turned into a hyphen */
  function FlagName(key: string): (flag: string)
    ensures |flag| == |key| + 2 && flag[..2] == "--"
    ensures forall i :: 0 <= i < |key| ==> flag[i + 2] == if key[i] == '_' then '-' else key[i]
    ensures '_' !in flag
  {
    "--" + Replace(key, '_', '-')
  }

  /** The number of tokens a pair contributes: two for a value key with a
      non-empty value, one for a boolean flag that is on, none otherwise. */
  function Width(key: string, value: string): nat {
    if IsValueKey(key) then (if value == "" then 0 else 2)
    else if GetBoolean(value) == Some(true) then 1 else 0
  }

  /** The tokens one (key, value) pair of the parameters section contributes,
      or the error getboolean raises for it */
  function KeyTokens(key: string, value: string): (r: Result<seq<string>, Error>)
    ensures r.Failure? <==> !Forwardable(key, value)
    ensures r.Failure? ==> r.error == NotABoolean(value)
    ensures r.Success? ==> |r.value| == Width(key, value)
  {
    if IsValueKey(key) then
      Success(if value != "" then [FlagName(key), value] else [])
    else
      match GetBoolean(value)
      case None => Failure(NotABoolean(value))
      case Some(on) => Success(if on then [FlagName(key)] else [])
  }

  /** Tokens of a front part followed by those of a back part; the front's
      error, if any, is the one reported. */
  function Then(front: Result<seq<string>, Error>, back: Result<seq<string>, Error>): Result<seq<string>, Error> {
    if front.Failure? then front
    else if back.Failure? then back
    else Success(front.value + back.value)
  }

  /** The outcomes of a run of steps gathered as the loop does, one after
      another: the tokens of all of them in order, or the first error. */
  function Gather(steps: seq<Result<seq<string>, Error>>): Result<seq<string>, Error> {
    if steps == [] then Success([])
    else Then(Gather(steps[..|steps| - 1]), steps[|steps| - 1])
  }

  /** The outcome of each pair of the section, in section order */
  function PairTokens(params: Section): (steps: seq<Result<seq<string>, Error>>)
    ensures |steps| == |params|
    ensures forall i :: 0 <= i < |params| ==> steps[i] == KeyTokens(params[i].0, params[i].1)
  {
    seq(|params|, i requires 0 <= i < |params| => KeyTokens(params[i].0, params[i].1))
  }

  /** The tokens of all parameters in section order; the first pair that
      cannot be forwarded stops the build with its error. */
  function ParamTokens(params: Section): (r: Result<seq<string>, Error>)
    ensures r.Success? <==> AllForwardable(params)
  {
    GatherSucceeds(PairTokens(params));
    Gather(PairTokens(params))
  }

  /** general.get("output_format", "txt") */
  function OutputFormat(general: Section): (format: string)
    ensures Lookup(general, "output_format").None? ==> format == DEFAULT_OUTPUT_FORMAT
    ensures Lookup(general, "output_format").Some? ==> ("output_format", format) in general
  {
    Lookup(general, "output_format").GetOr(DEFAULT_OUTPUT_FORMAT)
  }

  /** The whole command for one file, or the error that stops it */
  function BuildCommand(params: Section, general: Section, filePath: string): (r: Result<seq<string>, Error>)
    ensures r.Success? <==> AllForwardable(params)
    ensures r.Failure? ==> r.error == ParamTokens(params).error
    ensures r.Success? ==> |r.value| >= 4 && r.value[0] == EXECUTABLE && r.value[|r.value| - 2..] == ["-f", filePath]
  {
    match ParamTokens(params)
    case Failure(e) => Failure(e)
    case Success(tokens) => Success([EXECUTABLE] + tokens + ["--output-" + OutputFormat(general), "-f", filePath])
  }

  function TotalWidth(params: Section): nat {
    if params == [] then 0
    else
      var last := params[|params| - 1];
      TotalWidth(params[..|params| - 1]) + Width(last.0, last.1)
  }

  /** Every pair of the section can be forwarded */
  predicate AllForwardable(params: Section) {
    forall i :: 0 <= i < |params| ==> Forwardable(params[i].0, params[i].1)
  }

  lemma ThenAssociative(x: Result<seq<string>, Error>, y: Result<seq<string>, Error>, z: Result<seq<string>, Error>)
    ensures Then(x, Then(y, z)) == Then(Then(x, y), z)
  {
    if x.Success? && y.Success? && z.Success? {
      assert x.value + (y.value + z.value) == (x.value + y.value) + z.value;
    }
  }

  /** Gathering a concatenation: the tokens of the first run come before
      those of the second, and the first error wins. */
  lemma {:induction false} GatherAppend(xs: seq<Result<seq<string>, Error>>, ys: seq<Result<seq<string>, Error>>)
    ensures Gather(xs + ys) == Then(Gather(xs), Gather(ys))
  {
    if ys == [] {
      assert xs + ys == xs;
      assert Gather(xs).Success? ==> Gather(xs).value + [] == Gather(xs).value;
    } else {
      var front, last := ys[..|ys| - 1], ys[|ys| - 1];
      assert (xs + ys)[..|xs + ys| - 1] == xs + front && (xs + ys)[|xs + ys| - 1] == last;
      calc {
        Gather(xs + ys);
        Then(Gather(xs + front), last);
        { GatherAppend(xs, front); }
        Then(Then(Gather(xs), Gather(front)), last);
        { ThenAssociative(Gather(xs), Gather(front), last); }
        Then(Gather(xs), Then(Gather(front), last));
        Then(Gather(xs), Gather(ys));
      }
    }
  }

  /** Gathering succeeds exactly when every step does */
  lemma {:induction false} GatherSucceeds(steps: seq<Result<seq<string>, Error>>)
    ensures Gather(steps).Success? <==> forall i :: 0 <= i < |steps| ==> steps[i].Success?
  {
    if steps != [] {
      var front := steps[..|steps| - 1];
      GatherSucceeds(front);
      assert forall i :: 0 <= i < |front| ==> front[i] == steps[i];
    }
  }

  /** A failed gathering reports the error of the first failed step */
  lemma {:induction false} GatherFirstFailure(steps: seq<Result<seq<string>, Error>>)
    requires Gather(steps).Failure?
    ensures exists i :: 0 <= i < |steps| && steps[i].Failure? &&
              (forall j :: 0 <= j < i ==> steps[j].Success?) &&
              Gather(steps).error == steps[i].error
  {
    var n := |steps|;
    var front := steps[..n - 1];
    if Gather(front).Failure? {
      GatherFirstFailure(front);
      var i :| 0 <= i < |front| && front[i].Failure? &&
               (forall j :: 0 <= j < i ==> front[j].Success?) &&
               Gather(front).error == front[i].error;
      assert Gather(steps) == Gather(front);
      assert forall j :: 0 <= j <= i ==> steps[j] == front[j];
    } else {
      GatherSucceeds(front);
      assert Gather(steps) == steps[n - 1];
      assert forall j :: 0 <= j < n - 1 ==> steps[j] == front[j];
    }
  }

  /** Step i's tokens start right after the tokens of the steps before it */
  lemma GatherAt(steps: seq<Result<seq<string>, Error>>, i: nat)
    requires i < |steps| && Gather(steps).Success?
    ensures Gather(steps[..i]).Success? && steps[i].Success?
    ensures var at, tokens := |Gather(steps[..i]).value|, Gather(steps).value;
            && at + |steps[i].value| <= |tokens|
            && tokens[at..at + |steps[i].value|] == steps[i].value
  {
    var before, after := steps[..i + 1], steps[i + 1..];
    assert steps == before + after;
    GatherAppend(before, after);
    assert before[..i] == steps[..i] && before[i] == steps[i];
  }

  /** Every gathered token comes from one of the steps */
  lemma {:induction false} GatherOrigin(steps: seq<Result<seq<string>, Error>>)
    requires Gather(steps).Success?
    ensures forall t :: t in Gather(steps).value ==>
              exists i :: 0 <= i < |steps| && steps[i].Success? && t in steps[i].value
  {
    if steps != [] {
      var n := |steps|;
      var front := steps[..n - 1];
      GatherOrigin(front);
      forall t | t in Gather(steps).value
        ensures exists i :: 0 <= i < n && steps[i].Success? && t in steps[i].value
      {
        if t in Gather(front).value {
          var i :| 0 <= i < |front| && front[i].Success? && t in front[i].value;
          assert front[i] == steps[i];
        } else {
          assert steps[n - 1].Success? && t in steps[n - 1].value;
        }
      }
    }
  }

  /** The outcomes of a prefix of the section are a prefix of the outcomes */
  lemma PairTokensPrefix(params: Section, n: nat)
    requires n <= |params|
    ensures PairTokens(params[..n]) == PairTokens(params)[..n]
  {
  }

  /** A failed build reports the value of the first pair that cannot be forwarded */
  lemma ParamTokensFailure(params: Section)
    requires ParamTokens(params).Failure?
    ensures exists i :: 0 <= i < |params| && !Forwardable(params[i].0, params[i].1) &&
              (forall j :: 0 <= j < i ==> Forwardable(params[j].0, params[j].1)) &&
              ParamTokens(params).error == NotABoolean(params[i].1)
  {
    var steps := PairTokens(params);
    GatherFirstFailure(steps);
    var i :| 0 <= i < |steps| && steps[i].Failure? &&
             (forall j :: 0 <= j < i ==> steps[j].Success?) &&
             Gather(steps).error == steps[i].error;
    assert !Forwardable(params[i].0, params[i].1);
  }

  /** A successful build yields as many tokens as the pairs' widths add up to */
  lemma {:induction false} ParamTokensLength(params: Section)
    requires ParamTokens(params).Success?
    ensures |ParamTokens(params).value| == TotalWidth(params)
  {
    if params != [] {
      var n := |params|;
      var front := params[..n - 1];
      PairTokensPrefix(params, n - 1);
      assert ParamTokens(params) == Then(ParamTokens(front), KeyTokens(params[n - 1].0, params[n - 1].1));
      ParamTokensLength(front);
    }
  }

  /** The layout of the parameter tokens: pair i's tokens start right after
      the tokens of the pairs before it, so they come out in section order. */
  lemma ParamTokensAt(params: Section, i: nat)
    requires i < |params| && ParamTokens(params).Success?
    ensures var tokens := ParamTokens(params).value;
            var (key, value) := params[i];
            var at := TotalWidth(params[..i]);
            && at + Width(key, value) <= |tokens|
            && (IsValueKey(key) && value != "" ==> tokens[at..at + 2] == [FlagName(key), value])
            && (!IsValueKey(key) && GetBoolean(value) == Some(true) ==> tokens[at..at + 1] == [FlagName(key)])
  {
    ParamTokensSlice(params, i);
    KeyTokensShape(params[i].0, params[i].1);
  }

  /** Pair i's tokens, as a slice of all parameter tokens */
  lemma ParamTokensSlice(params: Section, i: nat)
    requires i < |params| && ParamTokens(params).Success?
    ensures KeyTokens(params[i].0, params[i].1).Success?
    ensures var tokens, at := ParamTokens(params).value, TotalWidth(params[..i]);
            var k := KeyTokens(params[i].0, params[i].1).value;
            at + |k| <= |tokens| && tokens[at..at + |k|] == k
  {
    var steps := PairTokens(params);
    GatherAt(steps, i);
    PairTokensPrefix(params, i);
    ParamTokensLength(params[..i]);
  }

  lemma KeyTokensShape(key: string, value: string)
    ensures IsValueKey(key) && value != "" ==> KeyTokens(key, value) == Success([FlagName(key), value])
    ensures !IsValueKey(key) && GetBoolean(value) == Some(true) ==> KeyTokens(key, value) == Success([FlagName(key)])
  {
  }

  /** Every parameter token is either a flag name made from one of the keys
      (so it has no underscore) or the non-empty value of a value key. */
  lemma ParamTokensOrigin(params: Section)
    requires ParamTokens(params).Success?
    ensures forall t :: t in ParamTokens(params).value ==>
              exists i :: 0 <= i < |params| &&
                (t == FlagName(params[i].0) || (IsValueKey(params[i].0) && t == params[i].1 != ""))
  {
    var steps := PairTokens(params);
    GatherOrigin(steps);
    forall t | t in ParamTokens(params).value
      ensures exists i :: 0 <= i < |params| &&
                (t == FlagName(params[i].0) || (IsValueKey(params[i].0) && t == params[i].1 != ""))
    {
      var i :| 0 <= i < |steps| && steps[i].Success? && t in steps[i].value;
      assert t == FlagName(params[i].0) || (IsValueKey(params[i].0) && t == params[i].1 != "");
    }
  }

  /** The frame of every command: the executable first, then the parameter
      tokens, then the output format flag, "-f" and the file path last. */
  lemma CommandLayout(params: Section, general: Section, filePath: string)
    requires BuildCommand(params, general, filePath).Success?
    ensures var command := BuildCommand(params, general, filePath).value;
            && |command| == 1 + TotalWidth(params) + 3
            && command[0] == EXECUTABLE
            && command[1..|command| - 3] == ParamTokens(params).value
            && command[|command| - 3..] == ["--output-" + OutputFormat(general), "-f", filePath]
            && (Lookup(general, "output_format").None? ==> command[|command| - 3] == "--output-txt")
  {
    ParamTokensLength(params);
  }

  /** A failed build names the value of the first pair that cannot be forwarded */
  lemma BuildCommandOutcome(params: Section, general: Section, filePath: string)
    ensures BuildCommand(params, general, filePath).Failure? ==>
              exists i :: 0 <= i < |params| && !Forwardable(params[i].0, params[i].1) &&
                (forall j :: 0 <= j < i ==> Forwardable(params[j].0, params[j].1)) &&
                BuildCommand(params, general, filePath).error == NotABoolean(params[i].1)
  {
    if ParamTokens(params).Failure? {
      ParamTokensFailure(params);
    }
  }

  /** The dry-run line, split on spaces, gives the command back exactly when
      no token holds a space: the line is a faithful rendering of the command
      only for space-free paths and values. */
  lemma DryRunLineRetokenizes(params: Section, general: Section, filePath: string)
    requires BuildCommand(params, general, filePath).Success?
    ensures var command := BuildCommand(params, general, filePath).value;
            Split(Join(command, " "), ' ') == command <==> forall i :: 0 <= i < |command| ==> ' ' !in command[i]
  {
    SplitJoin(BuildCommand(params, general, filePath).value, ' ');
  }

  /** getboolean(key) looks the value up again by key. In a section without
      repeated keys that lookup finds the very value items() yielded with the
      key, so pair i's tokens, or its error, are those of the pair itself. */
  lemma KeyTokensByLookup(params: Section, i: nat)
    requires UniqueKeys(params) && i < |params|
    ensures Lookup(params, params[i].0) == Some(params[i].1)
    ensures KeyTokens(params[i].0, Lookup(params, params[i].0).value) == KeyTokens(params[i].0, params[i].1)
  {
    LookupFindsStoredValue(params, params[i].0, params[i].1);
  }

  /** Once a prefix of the section fails, the whole build fails the same way */
  lemma ParamTokensPrefixFails(params: Section, n: nat)
    requires n <= |params| && ParamTokens(params[..n]).Failure?
    ensures ParamTokens(params) == ParamTokens(params[..n])
  {
    var steps := PairTokens(params);
    PairTokensPrefix(params, n);
    assert steps == steps[..n] + steps[n..];
    GatherAppend(steps[..n], steps[n..]);
  }

  /** The loop's step: the tokens of the first i + 1 pairs are those of the
      first i pairs followed by those of pair i. */
  lemma ParamTokensStep(params: Section, i: nat)
    requires i < |params|
    ensures ParamTokens(params[..i + 1]) == Then(ParamTokens(params[..i]), KeyTokens(params[i].0, params[i].1))
  {
    PairTokensPrefix(params[..i + 1], i);
    assert params[..i + 1][..i] == params[..i];
  }

  /** One pass of the loop over the parameters section: the command grown by
      the pair's tokens, or the error getboolean raises for the pair. */
  method ExtendCommand(command: seq<string>, key: string, value: string)
    returns (r: Result<seq<string>, Error>)
    ensures KeyTokens(key, value).Success? ==> r == Success(command + KeyTokens(key, value).value)
    ensures KeyTokens(key, value).Failure? ==> r == Failure(KeyTokens(key, value).error)
  {
    if IsValueKey(key) {
      if value != "" {
        return Success(command + [FlagName(key), value]);
      }
    } else {
      var on := GetBoolean(value);
      if on.None? {
        return Failure(NotABoolean(value));
      }
      if on.value {
        return Success(command + [FlagName(key)]);
      }
    }
    assert command + [] == command;
    return Success(command);
  }

  /** transcribe_file up to the hand-off: the command is built token by token
      in a list; a dry run reports the space-joined line and runs nothing. */
  method TranscribeFile(filePath: string, params: Section, general: Section, dryRun: bool)
    returns (r: Result<Action, Error>)
    ensures BuildCommand(params, general, filePath).Failure? ==>
              r == Failure(BuildCommand(params, general, filePath).error)
    ensures BuildCommand(params, general, filePath).Success? ==>
              var command := BuildCommand(params, general, filePath).value;
              r == Success(if dryRun then DryRunReport(Join(command, " ")) else Execute(command))
  {
    var command := [EXECUTABLE];
    var i := 0;
    while i < |params|
      invariant i <= |params|
      invariant ParamTokens(params[..i]).Success?
      invariant command == [EXECUTABLE] + ParamTokens(params[..i]).value
    {
      var (key, value) := params[i];
      ParamTokensStep(params, i);
      var step := ExtendCommand(command, key, value);
      if step.Failure? {
        ParamTokensPrefixFails(params, i + 1);
        return Failure(step.error);
      }
      assert step.value == [EXECUTABLE] + ParamTokens(params[..i + 1]).value by {
        ConcatAssociative([EXECUTABLE], ParamTokens(params[..i]).value, KeyTokens(key, value).value);
      }
      command := step.value;
      i := i + 1;
    }
    assert params[..i] == params;
    command := command + ["--output-" + OutputFormat(general)];
    command := command + ["-f", filePath];
    assert command == BuildCommand(params, general, filePath).value;
    if dryRun {
      return Success(DryRunReport(Join(command, " ")));
    }
    return Success(Execute(command));
  }
}
