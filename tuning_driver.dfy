/** main.py: the script that tunes the Gotoh gap penalties. Each trial builds a gradle command with the
    two sampled penalties, runs it and reads the score from its output; a supervisor loop keeps
    restarting the optimizer. The sampler, the study store and the subprocess are parameters: a
    penalty arrives as the text `str` gives for it, the command's output as text, and a session of the
    optimizer as the way it ended. */
module TuningDriver {
  import opened Errors

  datatype Option<T> = None | Some(value: T)

  /** The study: its name, direction, whether an existing one is resumed, and trials per session. */
  datatype Direction = Minimize | Maximize
  datatype Study = Study(name: string, direction: Direction, loadIfExists: bool, trials: nat)
  const GotohStudy: Study := Study("Gotoh", Minimize, true, 100)

  /** The search space: both penalties are floats drawn from [-1.0, 0.5]. */
  datatype FloatParameter = FloatParameter(name: string, low: real, high: real)
  const SearchSpace: seq<FloatParameter> := [FloatParameter("gapOpen", -1.0, 0.5), FloatParameter("gapExtend", -1.0, 0.5)]

  const TestCommand: string := "gradlew test --tests \"DifferenceGeneratorTest.Test a generated case using TestCaseGenerator\" --info "
  const OpenFlag: string := "-DgapOpenPenalty="
  const ExtendFlag: string := " -DgapExtensionPenalty="
  const Quote: char := '"'

  /** The command of a trial: the fixed test invocation, then each penalty as a quoted system property. */
  function Command(gapOpen: string, gapExtend: string): (r: string)
    ensures |r| == |TestCommand| + |OpenFlag| + |ExtendFlag| + |gapOpen| + |gapExtend| + 4
    ensures r[..|TestCommand|] == TestCommand
  {
    var command := TestCommand;
    var command := command + OpenFlag + [Quote] + gapOpen + [Quote];
    command + ExtendFlag + [Quote] + gapExtend + [Quote]
  }

  /** The text before the first quote. */
  function UpToQuote(s: string): (r: string)
    ensures |r| <= |s| && r == s[..|r|] && Quote !in r
    ensures |r| < |s| ==> s[|r|] == Quote
  {
    if s == [] || s[0] == Quote then [] else [s[0]] + UpToQuote(s[1..])
  }

  lemma {:induction false} UpToQuoteOf(a: string, t: string)
    requires Quote !in a
    ensures UpToQuote(a + [Quote] + t) == a
  {
    if a != [] {
      assert (a + [Quote] + t)[1..] == a[1..] + [Quote] + t;
      UpToQuoteOf(a[1..], t);
    }
  }

  function HasPrefix(s: string, p: string): bool { |p| <= |s| && s[..|p|] == p }

  /** Reads two quoted values back from a text made of `header`, the first value, a closing quote,
      `middle`, the second value and a closing quote. */
  function ParseQuoted(text: string, header: string, middle: string): Option<(string, string)>
  {
    if !HasPrefix(text, header) then None
    else
      var rest := text[|header|..];
      var first := UpToQuote(rest);
      if |first| == |rest| then None
      else
        var tail := rest[|first| + 1..];
        if !HasPrefix(tail, middle) then None
        else
          var quoted := tail[|middle|..];
          var second := UpToQuote(quoted);
          if quoted == second + [Quote] then Some((first, second)) else None
  }

  lemma ParseQuotedOf(header: string, first: string, middle: string, second: string)
    requires Quote !in first && Quote !in second
    ensures ParseQuoted(header + first + [Quote] + middle + second + [Quote], header, middle) == Some((first, second))
  {
    var text := header + first + [Quote] + middle + second + [Quote];
    var rest := text[|header|..];
    assert text[..|header|] == header;
    assert rest == first + [Quote] + (middle + second + [Quote]);
    UpToQuoteOf(first, middle + second + [Quote]);
    var tail := rest[|first| + 1..];
    assert tail == middle + (second + [Quote]);
    assert tail[..|middle|] == middle;
    assert tail[|middle|..] == second + [Quote];
    UpToQuoteOf(second, []);
    assert second + [Quote] + [] == second + [Quote];
  }

  lemma Regroup(test: string, open: string, first: string, extend: string, second: string)
    ensures test + open + [Quote] + first + [Quote] + extend + [Quote] + second + [Quote]
            == (test + open + [Quote]) + first + [Quote] + (extend + [Quote]) + second + [Quote]
  {
  }

  /** Reads the two penalties back from a command, if it has the shape of one. */
  function GapPenalties(command: string): Option<(string, string)>
  {
    ParseQuoted(command, TestCommand + OpenFlag + [Quote], ExtendFlag + [Quote])
  }

  /** The command keeps both penalties, each in its own property and in order: as `str` of a float has
      no quote in it, they can be read back from the command. */
  lemma CommandKeepsPenalties(gapOpen: string, gapExtend: string)
    requires Quote !in gapOpen && Quote !in gapExtend
    ensures GapPenalties(Command(gapOpen, gapExtend)) == Some((gapOpen, gapExtend))
  {
    var header, middle := TestCommand + OpenFlag + [Quote], ExtendFlag + [Quote];
    ParseQuotedOf(header, gapOpen, middle, gapExtend);
    Regroup(TestCommand, OpenFlag, gapOpen, ExtendFlag, gapExtend);
  }

  /** The piece holds no separator. */
  predicate NoSeparator(piece: string, sep: char)
  {
    forall k :: 0 <= k < |piece| ==> piece[k] != sep
  }

  lemma NoSeparatorCons(x: char, piece: string, sep: char)
    requires x != sep && NoSeparator(piece, sep)
    ensures NoSeparator([x] + piece, sep)
  {
    assert forall k :: 1 <= k <= |piece| ==> ([x] + piece)[k] == piece[k - 1];
  }

  /** The first position of `c` in `s`, or -1. */
  function Find(s: string, c: char): (i: int)
    ensures -1 <= i < |s|
    ensures i == -1 ==> NoSeparator(s, c)
    ensures i >= 0 ==> s[i] == c && NoSeparator(s[..i], c)
  {
    if s == [] then -1
    else if s[0] == c then 0
    else
      var j := Find(s[1..], c);
      assert forall k :: 1 <= k < |s| ==> s[k] == s[1..][k - 1];
      if j == -1 then -1
      else
        NoSeparatorCons(s[0], s[1..][..j], c);
        assert s[..j + 1] == [s[0]] + s[1..][..j];
        j + 1
  }

  /** One step of the split: the text before the first separator, then the split of the rest. */
  lemma SplitStep(s: string, sep: char)
    ensures Find(s, sep) == -1 ==> Split(s, sep) == [s]
    ensures Find(s, sep) != -1 ==> Split(s, sep) == [s[..Find(s, sep)]] + Split(s[Find(s, sep) + 1..], sep)
  {
  }

  /** Python's `s.split(sep)` with an explicit separator: every separator cuts, so the pieces may be
      empty and there is always at least one. */
  function Split(s: string, sep: char): (r: seq<string>)
    ensures |r| >= 1
    decreases |s|
  {
    var i := Find(s, sep);
    if i == -1 then [s] else [s[..i]] + Split(s[i + 1..], sep)
  }

  /** No piece contains the separator. */
  lemma {:induction false} SplitPieces(s: string, sep: char)
    ensures forall i :: 0 <= i < |Split(s, sep)| ==> NoSeparator(Split(s, sep)[i], sep)
    decreases |s|
  {
    var i := Find(s, sep);
    if i != -1 {
      SplitPieces(s[i + 1..], sep);
      var rest := Split(s[i + 1..], sep);
      SplitStep(s, sep);
      assert forall k :: 1 <= k < |rest| + 1 ==> Split(s, sep)[k] == rest[k - 1];
    }
  }

  /** `sep.join(parts)`. */
  function Join(parts: seq<string>, sep: char): string
    requires |parts| >= 1
  {
    if |parts| == 1 then parts[0] else parts[0] + [sep] + Join(parts[1..], sep)
  }

  /** Splitting loses nothing: joining the pieces with the separator gives the text back. */
  lemma {:induction false} JoinSplit(s: string, sep: char)
    ensures Join(Split(s, sep), sep) == s
    decreases |s|
  {
    SplitStep(s, sep);
    var i := Find(s, sep);
    if i != -1 {
      var t := s[i + 1..];
      JoinSplit(t, sep);
      JoinCons(s[..i], Split(t, sep), sep);
      assert s == s[..i] + [sep] + t;
    }
  }

  lemma JoinCons(x: string, rest: seq<string>, sep: char)
    requires |rest| >= 1
    ensures Join([x] + rest, sep) == x + [sep] + Join(rest, sep)
  {
    assert ([x] + rest)[1..] == rest;
  }

  /** The last piece of a split is the text after the last separator. */
  lemma {:induction false} SplitLast(s: string, sep: char)
    ensures var last := Last(Split(s, sep));
            |last| <= |s| && last == s[|s| - |last|..]
            && (|last| < |s| ==> s[|s| - |last| - 1] == sep)
    decreases |s|
  {
    var i := Find(s, sep);
    if i != -1 {
      var t := s[i + 1..];
      SplitLast(t, sep);
      var rest := Split(t, sep);
      SplitStep(s, sep);
      LastOfCons(s[..i], rest);
      SuffixOfSuffix(s, i + 1, |Last(rest)|);
    }
  }

  function Last(parts: seq<string>): string
    requires |parts| >= 1
  {
    parts[|parts| - 1]
  }

  lemma LastOfCons(x: string, rest: seq<string>)
    requires |rest| >= 1
    ensures Last([x] + rest) == Last(rest)
  {
  }

  lemma SuffixOfSuffix(s: string, j: nat, n: nat)
    requires j <= |s| && n <= |s| - j
    ensures s[j..][|s| - j - n..] == s[|s| - n..]
    ensures n < |s| - j ==> s[j..][|s| - j - n - 1] == s[|s| - n - 1]
  {
  }

  /** `pattern` occurs in `line` at position `i`. */
  predicate OccursAt(line: string, pattern: string, i: nat)
  {
    i + |pattern| <= |line| && line[i..i + |pattern|] == pattern
  }

  /** `pattern in line`. */
  function Contains(line: string, pattern: string): bool
    decreases |line|
  {
    HasPrefix(line, pattern) || (|line| > |pattern| && Contains(line[1..], pattern))
  }

  /** What `Contains` finds is an occurrence, */
  lemma {:induction false} ContainsOccurs(line: string, pattern: string)
    requires Contains(line, pattern)
    ensures exists i: nat :: OccursAt(line, pattern, i)
    decreases |line|
  {
    if HasPrefix(line, pattern) {
      assert OccursAt(line, pattern, 0);
    } else {
      ContainsOccurs(line[1..], pattern);
      var i: nat :| OccursAt(line[1..], pattern, i);
      assert line[1..][i..i + |pattern|] == line[i + 1..i + 1 + |pattern|];
      assert OccursAt(line, pattern, i + 1);
    }
  }

  /** and every occurrence is found. */
  lemma {:induction false} OccursContains(line: string, pattern: string, i: nat)
    requires OccursAt(line, pattern, i)
    ensures Contains(line, pattern)
    decreases i
  {
    if i == 0 {
      assert line[..|pattern|] == line[i..i + |pattern|];
    } else {
      assert line[1..][i - 1..i - 1 + |pattern|] == line[i..i + |pattern|];
      OccursContains(line[1..], pattern, i - 1);
    }
  }

  /** `in` on strings is a substring test. */
  lemma ContainsAt(line: string, pattern: string)
    ensures Contains(line, pattern) <==> exists i: nat :: OccursAt(line, pattern, i)
  {
    if Contains(line, pattern) {
      ContainsOccurs(line, pattern);
    }
    if exists i: nat :: OccursAt(line, pattern, i) {
      var i: nat :| OccursAt(line, pattern, i);
      OccursContains(line, pattern, i);
    }
  }

  /** The whitespace `str.strip()` removes. */
  predicate IsSpace(c: char)
  {
    c == ' ' || ('\t' <= c <= '\r') || ('\U{1c}' <= c <= '\U{1f}') || c == '\U{85}' || c == '\U{a0}'
    || c == '\U{1680}' || ('\U{2000}' <= c <= '\U{200a}') || c == '\U{2028}' || c == '\U{2029}'
    || c == '\U{202f}' || c == '\U{205f}' || c == '\U{3000}'
  }

  function StripStart(s: string): (r: string)
    ensures |r| <= |s| && r == s[|s| - |r|..]
    ensures r == [] || !IsSpace(r[0])
    ensures forall k :: 0 <= k < |s| - |r| ==> IsSpace(s[k])
  {
    if s != [] && IsSpace(s[0]) then StripStart(s[1..]) else s
  }

  function StripEnd(s: string): (r: string)
    ensures |r| <= |s| && r == s[..|r|]
    ensures r == [] || !IsSpace(r[|r| - 1])
    ensures forall k :: |r| <= k < |s| ==> IsSpace(s[k])
  {
    if s != [] && IsSpace(s[|s| - 1]) then StripEnd(s[..|s| - 1]) else s
  }

  /** `line.strip()`: the line without its leading and trailing whitespace. */
  function Strip(s: string): (r: string)
    ensures |r| <= |s|
    ensures r == [] || (!IsSpace(r[0]) && !IsSpace(r[|r| - 1]))
  {
    StripEnd(StripStart(s))
  }

  /** The lines of the output that mention "Levenshtein", in order. */
  function Matching(lines: seq<string>): (r: seq<string>)
    ensures forall i :: 0 <= i < |r| ==> Contains(r[i], "Levenshtein")
  {
    if lines == [] then []
    else (if Contains(lines[0], "Levenshtein") then [lines[0]] else []) + Matching(lines[1..])
  }

  /** The first of them is the first line that mentions it. */
  lemma {:induction false} FirstMatching(lines: seq<string>)
    ensures Matching(lines) != [] <==> exists i :: 0 <= i < |lines| && Contains(lines[i], "Levenshtein")
    ensures Matching(lines) != [] ==>
            exists i :: 0 <= i < |lines| && Matching(lines)[0] == lines[i]
                        && forall j :: 0 <= j < i ==> !Contains(lines[j], "Levenshtein")
  {
    if lines != [] {
      FirstMatching(lines[1..]);
      if !Contains(lines[0], "Levenshtein") && Matching(lines[1..]) != [] {
        var i :| 0 <= i < |lines[1..]| && Matching(lines[1..])[0] == lines[1..][i]
                 && forall j :: 0 <= j < i ==> !Contains(lines[1..][j], "Levenshtein");
        assert forall j :: 1 <= j < i + 1 ==> lines[j] == lines[1..][j - 1];
        assert Matching(lines)[0] == lines[i + 1];
      }
      assert forall i :: 1 <= i < |lines| ==> lines[i] == lines[1..][i - 1];
    }
  }

  /** `line.split(" ")[-1]`: the end of the line after its last space, or the whole line. */
  function LastToken(line: string): (r: string)
    ensures NoSeparator(r, ' ') && |r| <= |line| && r == line[|line| - |r|..]
    ensures |r| < |line| ==> line[|line| - |r| - 1] == ' '
  {
    SplitPieces(line, ' ');
    SplitLast(line, ' ');
    Last(Split(line, ' '))
  }

  /** The score text of a trial, from the command's output: the last space-separated token of the first
      line that mentions "Levenshtein", once stripped. With no such line `out[0]` throws. The float it
      is converted to is not modelled. */
  function Score(stdout: string): (r: Result<string>)
    ensures r.Err? ==> r.error == IndexOutOfBounds
  {
    var out := Matching(Split(stdout, '\n'));
    if out == [] then Err(IndexOutOfBounds) else Ok(LastToken(Strip(out[0])))
  }

  lemma ScoreOk(stdout: string)
    ensures Score(stdout).Ok? <==> Matching(Split(stdout, '\n')) != []
  {
  }

  /** The score is found exactly when a line mentions "Levenshtein", and is then read from the first
      such line. */
  lemma ScoreFound(stdout: string)
    ensures var lines := Split(stdout, '\n');
            (Score(stdout).Ok? <==> exists i :: 0 <= i < |lines| && Contains(lines[i], "Levenshtein"))
            && (Score(stdout).Ok? ==>
                  exists i :: 0 <= i < |lines| && Score(stdout).value == LastToken(Strip(lines[i]))
                              && forall j :: 0 <= j < i ==> !Contains(lines[j], "Levenshtein"))
  {
    var lines := Split(stdout, '\n');
    FirstMatching(lines);
    ScoreOk(stdout);
    if Score(stdout).Ok? {
      var i :| 0 <= i < |lines| && Matching(lines)[0] == lines[i]
               && forall j :: 0 <= j < i ==> !Contains(lines[j], "Levenshtein");
      assert Score(stdout).value == LastToken(Strip(lines[i]));
    }
  }

  /** `blackBox(trial)`: runs the command for the sampled penalties and reads its score; `run` stands
      for the subprocess and gives its decoded standard output. */
  function BlackBox(gapOpen: string, gapExtend: string, run: string -> string): (r: Result<string>)
    ensures var lines := Split(run(Command(gapOpen, gapExtend)), '\n');
            (r.Ok? <==> exists i :: 0 <= i < |lines| && Contains(lines[i], "Levenshtein"))
            && (r.Err? ==> r.error == IndexOutOfBounds)
  {
    ScoreFound(run(Command(gapOpen, gapExtend)));
    Score(run(Command(gapOpen, gapExtend)))
  }

  /** How one session of the optimizer ended: it ran all its trials, raised an `Exception` (a trial's
      IndexError, among others), was interrupted from the keyboard, or raised another `BaseException`. */
  datatype SessionEnd = Completed | RaisedException | Interrupted | RaisedBaseException

  /** How the supervisor loop ended: stopped by a keyboard interrupt, left by an exception it does not
      catch, or still running after the given sessions. */
  datatype SupervisorEnd = Broken | Propagated | Running

  /** The trials of one session from the `i`-th on, up to `n`. */
  function RunTrials(results: seq<Result<string>>, i: nat, n: nat): (r: (nat, SessionEnd))
    requires i <= n <= |results|
    ensures i <= r.0 <= n
    ensures r.1 == Completed || r.1 == RaisedException
    ensures forall k :: i <= k < r.0 && (r.1 == Completed || k < r.0 - 1) ==> results[k].Ok?
    ensures r.1 == Completed <==> r.0 == n && forall k :: i <= k < n ==> results[k].Ok?
    ensures r.1 == RaisedException ==> i < r.0 && results[r.0 - 1].Err?
    decreases n - i
  {
    if i == n then (n, Completed)
    else if results[i].Err? then (i + 1, RaisedException)
    else RunTrials(results, i + 1, n)
  }

  /** `study.optimize(blackBox, n_trials=TRIALS)`: the trials run in order, `results` giving what each
      call of the objective returns, until the study's number of trials have completed or one raises,
      whose exception leaves `optimize`. Returns how many trials ran and how the session ended; a
      failed score read ends it with an `Exception`, never with a keyboard interrupt. */
  function Optimize(study: Study, results: seq<Result<string>>): (r: (nat, SessionEnd))
    requires study.trials <= |results|
    ensures r.0 <= study.trials && !Ends(r.1)
    ensures r.1 == Completed <==> r.0 == study.trials && forall k :: 0 <= k < study.trials ==> results[k].Ok?
    ensures r.1 == RaisedException ==>
            0 < r.0 && results[r.0 - 1].Err? && forall k :: 0 <= k < r.0 - 1 ==> results[k].Ok?
  {
    RunTrials(results, 0, study.trials)
  }

  /** A session after which the loop does not start another. */
  predicate Ends(e: SessionEnd) { e == Interrupted || e == RaisedBaseException }

  /** The `__main__` loop: a new optimizer after every session that completes or raises an
      `Exception`; a keyboard interrupt breaks the loop. Returns how many sessions were started. */
  method Supervise(sessions: seq<SessionEnd>) returns (started: nat, end: SupervisorEnd)
    ensures started <= |sessions|
    ensures forall k :: 0 <= k < started - 1 ==> !Ends(sessions[k])
    ensures end == Running <==> started == |sessions| && forall k :: 0 <= k < |sessions| ==> !Ends(sessions[k])
    ensures end == Broken <==> started > 0 && sessions[started - 1] == Interrupted
    ensures end == Propagated <==> started > 0 && sessions[started - 1] == RaisedBaseException
  {
    started := 0;
    while started < |sessions|
      invariant started <= |sessions|
      invariant forall k :: 0 <= k < started ==> !Ends(sessions[k])
    {
      var session := sessions[started];
      started := started + 1;
      match session {
        case Completed =>
        case RaisedException =>
        case Interrupted => return started, Broken;
        case RaisedBaseException => return started, Propagated;
      }
    }
    return started, Running;
  }
}
