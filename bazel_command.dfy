/**
 * `BazelCommand` from scripts/bazel/xc_bazel_analyzer.py: one command's
 * group of Bazel server-log lines is validated and parsed into the entry
 * (`build`, `test`, ...), the server arguments before `--`, the target
 * arguments after it, the `--client_env` settings, the time stamp of the
 * `executeCommand` line and the "Caused by:" exception blocks of the log.
 * The source raises `ValueError` for a group it rejects, and `IndexError`
 * for one with an empty payload (rejected here too, as `Payload` records);
 * here `Init` returns false and `ParseCommand` returns `None`.
 */
module BazelCommands {
  import opened Wrappers
  import opened Collections
  import opened PyStr

  // The markers are written with their opening bracket apart, so that proofs can see their first character.

  /** The marker of the line that opens a command in the server log. */
  const RegisterMark: string := "[" + "com.google.devtools.build.lib.server.CommandManager.registerCommand]"

  /** The marker of the line that carries the command's arguments. */
  const ExecuteMark: string := "[" + "com.google.devtools.build.lib.server.GrpcServerImpl.executeCommand]"

  predicate IsRegister(line: string)
  {
    Contains(line, RegisterMark)
  }

  predicate IsExecute(line: string)
  {
    Contains(line, ExecuteMark)
  }

  /** `[line for line in lines if mark in line]`. */
  function LinesWith(lines: seq<string>, mark: string): (r: seq<string>)
    ensures |r| <= |lines|
  {
    if lines == [] then []
    else
      var init, last := lines[..|lines| - 1], lines[|lines| - 1];
      LinesWith(init, mark) + (if Contains(last, mark) then [last] else [])
  }

  /** The kept lines are exactly the lines that contain `mark`. */
  lemma {:induction false} LinesWithMembers(lines: seq<string>, mark: string)
    ensures forall line :: line in LinesWith(lines, mark) <==> line in lines && Contains(line, mark)
  {
    if lines != [] {
      var init, last := lines[..|lines| - 1], lines[|lines| - 1];
      LinesWithMembers(init, mark);
      assert lines == init + [last];
    }
  }

  /** Exactly one line of `lines` contains `mark`. */
  lemma LinesWithOne(lines: seq<string>, mark: string)
    requires |LinesWith(lines, mark)| == 1
    ensures LinesWith(lines, mark)[0] in lines && Contains(LinesWith(lines, mark)[0], mark)
    ensures forall line :: line in lines && Contains(line, mark) ==> line == LinesWith(lines, mark)[0]
  {
    LinesWithMembers(lines, mark);
    assert LinesWith(lines, mark)[0] in LinesWith(lines, mark);
  }

  // ---------------------------------------------------------------- time stamp

  /** A point in time as `datetime.strptime` builds it (the source then marks it as UTC). */
  datatype Timestamp = Timestamp(year: int, month: int, day: int, hour: int, minute: int, second: int, microsecond: int)

  predicate IsDigit(c: char)
  {
    '0' <= c <= '9'
  }

  /** The value of a decimal digit. */
  function Digit(c: char): (d: nat)
    ensures d <= 9
  {
    if IsDigit(c) then c as int - '0' as int else 0
  }

  /** The two-digit number at `line[i]`, `line[i + 1]`. */
  function TwoDigits(line: string, i: nat): (n: nat)
    requires i + 1 < |line|
    ensures n <= 99
  {
    Digit(line[i]) * 10 + Digit(line[i + 1])
  }

  /** `%y`: two-digit years up to 68 are in the 2000s, the others in the 1900s. */
  function FullYear(yy: nat): int
  {
    if yy <= 68 then 2000 + yy else 1900 + yy
  }

  predicate IsLeapYear(year: int)
  {
    year % 4 == 0 && (year % 100 != 0 || year % 400 == 0)
  }

  function DaysInMonth(year: int, month: int): int
    requires 1 <= month <= 12
  {
    if month == 2 then (if IsLeapYear(year) then 29 else 28)
    else if month in {4, 6, 9, 11} then 30
    else 31
  }

  /**
   * The line begins with what `(\d{6} \d{2}:\d{2}:\d{2}.\d{3}):I \d+`
   * matches: `yymmdd HH:MM:SS.fff:I ` and a digit (`.` is any character
   * but a newline).
   */
  predicate HasTimestampPrefix(line: string)
  {
    && |line| >= 23
    && IsDigit(line[0]) && IsDigit(line[1]) && IsDigit(line[2]) && IsDigit(line[3]) && IsDigit(line[4]) && IsDigit(line[5])
    && line[6] == ' ' && IsDigit(line[7]) && IsDigit(line[8])
    && line[9] == ':' && IsDigit(line[10]) && IsDigit(line[11])
    && line[12] == ':' && IsDigit(line[13]) && IsDigit(line[14])
    && line[15] != '\n' && IsDigit(line[16]) && IsDigit(line[17]) && IsDigit(line[18])
    && line[19] == ':' && line[20] == 'I' && line[21] == ' ' && IsDigit(line[22])
  }

  /**
   * The time stamp of the `executeCommand` line: the regex match, then
   * `strptime(..., "%y%m%d %H:%M:%S.%f")` on the 19 matched characters,
   * which needs a literal `.`, a real calendar date, an hour below 24 and
   * minutes and seconds below 60; the milliseconds become microseconds.
   */
  function ParseTimestamp(line: string): (t: Option<Timestamp>)
    ensures t.Some? ==> HasTimestampPrefix(line) && line[15] == '.'
    ensures t.Some? ==> 1 <= t.value.month <= 12 && 1 <= t.value.day <= DaysInMonth(t.value.year, t.value.month)
    ensures t.Some? ==> 0 <= t.value.hour < 24 && 0 <= t.value.minute < 60 && 0 <= t.value.second < 60
    ensures t.Some? ==> 0 <= t.value.microsecond < 1000000 && t.value.microsecond % 1000 == 0
    ensures t.Some? ==> 1969 <= t.value.year <= 2068
  {
    if !HasTimestampPrefix(line) || line[15] != '.' then None
    else
      var year := FullYear(TwoDigits(line, 0));
      var month, day := TwoDigits(line, 2), TwoDigits(line, 4);
      var hour, minute, second := TwoDigits(line, 7), TwoDigits(line, 10), TwoDigits(line, 13);
      var millis := Digit(line[16]) * 100 + TwoDigits(line, 17);
      if 1 <= month <= 12 && 1 <= day <= DaysInMonth(year, month) && hour < 24 && minute < 60 && second < 60
      then Some(Timestamp(year, month, day, hour, minute, second, millis * 1000))
      else None
  }

  /** A log line of the shape the source's comment shows. */
  lemma TimestampExample()
    ensures ParseTimestamp("241208 15:02:50.151:I 1408") == Some(Timestamp(2024, 12, 8, 15, 2, 50, 151000))
  {
  }

  /** A date that does not exist, here the 30th of February, is refused like a malformed line. */
  lemma TimestampRejectsBadDate()
    ensures ParseTimestamp("240230 15:02:50.151:I 1408") == None
  {
    assert TwoDigits("240230 15:02:50.151:I 1408", 2) == 2;
    assert TwoDigits("240230 15:02:50.151:I 1408", 4) == 30;
  }

  // ------------------------------------------------------------------ payload

  /** Whether the `[`, `]`-wrapped payload survived, as the code is written: an empty payload reaches `all_args[0]`. */
  datatype PayloadOutcome = Words(words: seq<string>) | ValueError | IndexError

  /**
   * Lines 154-167 as written: split the line at the marker, strip the
   * second part, require `[` first and `]` last, and split the inside on
   * `", "`.  A stripped payload that is empty makes `all_args[0]` raise
   * `IndexError`.
   */
  function PayloadAsWritten(line: string): (r: PayloadOutcome)
  {
    var parts := Split(line, ExecuteMark);
    if |parts| != 2 then ValueError
    else
      var stripped := Strip(parts[1]);
      if stripped == [] then IndexError
      else if stripped[0] == '[' && stripped[|stripped| - 1] == ']' then Words(Split(stripped[1..|stripped| - 1], ", "))
      else ValueError
  }

  /** The payload as evidently intended: every malformed payload, the empty one included, is a `ValueError`. */
  function Payload(line: string): (r: Option<seq<string>>)
    ensures r.Some? ==> |r.value| >= 1
  {
    var parts := Split(line, ExecuteMark);
    if |parts| != 2 then None
    else
      var stripped := Strip(parts[1]);
      if stripped != [] && stripped[0] == '[' && stripped[|stripped| - 1] == ']' then Some(Split(stripped[1..|stripped| - 1], ", "))
      else None
  }

  /** An accepted payload is the stripped text after the marker: its words joined by `", "` inside brackets. */
  lemma PayloadBrackets(line: string)
    requires Payload(line).Some?
    ensures |Split(line, ExecuteMark)| == 2
    ensures "[" + Join(Payload(line).value, ", ") + "]" == Strip(Split(line, ExecuteMark)[1])
  {
    var stripped := Strip(Split(line, ExecuteMark)[1]);
    var inner := stripped[1..|stripped| - 1];
    JoinSplit(inner, ", ");
    Bracketed(stripped);
  }

  /** Text that opens and closes with a bracket is its inside in brackets. */
  lemma Bracketed(s: string)
    requires s != [] && s[0] == '[' && s[|s| - 1] == ']'
    ensures |s| >= 2 && s == "[" + s[1..|s| - 1] + "]"
  {
    assert s == [s[0]] + s[1..|s| - 1] + [s[|s| - 1]];
  }

  /** The two agree except where the written code raises `IndexError`, which is exactly an all-whitespace payload. */
  lemma PayloadCorrection(line: string)
    ensures PayloadAsWritten(line).IndexError? <==> |Split(line, ExecuteMark)| == 2 && Strip(Split(line, ExecuteMark)[1]) == []
    ensures PayloadAsWritten(line).IndexError? ==> Payload(line).None?
    ensures PayloadAsWritten(line).Words? <==> Payload(line).Some?
    ensures Payload(line).Some? ==> PayloadAsWritten(line).words == Payload(line).value
  {
  }

  /**
   * An `executeCommand` line with a valid time stamp and nothing but the
   * line break after the marker passes the time-stamp check and the
   * two-part split, and then the written code raises `IndexError`, which
   * the caller's `except ValueError` does not catch.
   */
  lemma EmptyPayloadRaisesIndexError()
    ensures var line := "241208 15:02:50.151:I 1408 " + ExecuteMark + "\n";
      && ParseTimestamp(line).Some?
      && Split(line, ExecuteMark) == ["241208 15:02:50.151:I 1408 ", "\n"]
      && PayloadAsWritten(line) == IndexError
      && Payload(line) == None
  {
    var prefix := "241208 15:02:50.151:I 1408 ";
    var line := prefix + ExecuteMark + "\n";
    assert line == prefix + (ExecuteMark + "\n");
    ExampleTimestamp(prefix, ExecuteMark + "\n");
    SplitPrefix(prefix, ExecuteMark + "\n", ExecuteMark);
    SplitAfterMark();
    assert prefix + "" == prefix;
    StripEmpty("\n");
  }

  /** The example line's time stamp, followed by a space and anything else. */
  lemma ExampleTimestamp(prefix: string, rest: string)
    requires prefix == "241208 15:02:50.151:I 1408 "
    ensures ParseTimestamp(prefix + rest).Some?
  {
    TimestampOfPrefix(prefix, rest);
    TimestampExample();
    TimestampOfPrefix("241208 15:02:50.151:I 1408", " ");
    assert prefix == "241208 15:02:50.151:I 1408" + " ";
  }

  /** The time stamp depends on the first 23 characters only. */
  lemma TimestampOfPrefix(prefix: string, rest: string)
    requires |prefix| >= 23
    ensures ParseTimestamp(prefix + rest) == ParseTimestamp(prefix)
  {
    assert forall k :: 0 <= k < 23 ==> (prefix + rest)[k] == prefix[k];
  }

  lemma SplitAfterMark()
    ensures Split(ExecuteMark + "\n", ExecuteMark) == ["", "\n"]
  {
    var s := ExecuteMark + "\n";
    assert s[..|ExecuteMark|] == ExecuteMark;
    assert s[|ExecuteMark|..] == "\n";
    assert Split("\n", ExecuteMark) == ["\n"];
  }

  // ---------------------------------------------------------------- client env

  /** The words the argument loop treats as environment settings. */
  predicate IsClientEnvWord(word: string)
  {
    StartsWith(word, "--client_env")
  }

  /** `s` up to its first newline: what the regex `.*` can cover. */
  function FirstLine(s: string): (r: string)
    ensures r <= s && '\n' !in r
    ensures |r| == |s| || s[|r|] == '\n'
  {
    if s == [] || s[0] == '\n' then [] else [s[0]] + FirstLine(s[1..])
  }

  /** The index of the last `=` in `s`, or -1. */
  function LastEquals(s: string): (k: int)
    ensures -1 <= k < |s|
    ensures k >= 0 ==> s[k] == '='
  {
    if s == [] then -1
    else if s[|s| - 1] == '=' then |s| - 1
    else LastEquals(s[..|s| - 1])
  }

  /** No `=` follows the index, and -1 means there is none at all. */
  lemma {:induction false} LastEqualsIsLast(s: string)
    ensures forall j :: LastEquals(s) < j < |s| ==> s[j] != '='
    ensures LastEquals(s) == -1 <==> '=' !in s
  {
    if s != [] && s[|s| - 1] != '=' {
      LastEqualsIsLast(s[..|s| - 1]);
      assert s == s[..|s| - 1] + [s[|s| - 1]];
    }
  }

  datatype Setting = Setting(key: string, value: string)

  /**
   * `re.match(r"--client_env=(.*)=(.*)", word)`: both groups are greedy and
   * stop at a newline, so the key runs up to the last `=` before the first
   * newline and the value from there to that newline.
   */
  function ParseClientEnv(word: string): (r: Option<Setting>)
  {
    if !StartsWith(word, "--client_env=") then None
    else
      var line := FirstLine(word[13..]);
      var k := LastEquals(line);
      if k < 0 then None else Some(Setting(line[..k], line[k + 1..]))
  }

  /** There is no setting exactly when the word lacks the `--client_env=` prefix or a further `=` before any newline. */
  lemma ClientEnvNoMatch(word: string)
    ensures ParseClientEnv(word).None? <==> !StartsWith(word, "--client_env=") || '=' !in FirstLine(word[13..])
  {
    if StartsWith(word, "--client_env=") {
      LastEqualsIsLast(FirstLine(word[13..]));
    }
  }

  /**
   * The setting is what the greedy regex captures: the word is
   * `--client_env=key=value` up to its end or a newline, and the value
   * holds no `=`.
   */
  lemma ClientEnvMatch(word: string)
    requires ParseClientEnv(word).Some?
    ensures var r := ParseClientEnv(word).value;
      && StartsWith(word, "--client_env=") && StartsWith(word[13..], r.key + "=" + r.value)
      && '=' !in r.value && '\n' !in r.key && '\n' !in r.value
  {
    var line, k := MatchedLine(word);
    var key, value := line[..k], line[k + 1..];
    AroundEquals(line, k);
    assert '=' !in value by {
      forall j | 0 <= j < |value| ensures value[j] != '=' {
        assert value[j] == line[k + 1 + j];
      }
    }
    assert '\n' !in key && '\n' !in value by {
      assert forall c :: c in key ==> c in line;
      assert forall c :: c in value ==> c in line;
    }
  }

  /** A line cut at one of its `=` signs. */
  lemma AroundEquals(line: string, k: nat)
    requires k < |line| && line[k] == '='
    ensures line == line[..k] + "=" + line[k + 1..]
  {
    assert line == line[..k] + [line[k]] + line[k + 1..];
  }

  /** The match stops only at the end of the word or at a newline. */
  lemma ClientEnvMatchEnds(word: string)
    requires ParseClientEnv(word).Some?
    ensures var r := ParseClientEnv(word).value;
      14 + |r.key| + |r.value| == |word| || word[14 + |r.key| + |r.value|] == '\n'
  {
    var line, k := MatchedLine(word);
    var rest := word[13..];
    var r := ParseClientEnv(word).value;
    assert 14 + |r.key| + |r.value| == 13 + |line|;
    if |line| < |rest| {
      assert word[13 + |line|] == rest[|line|];
    }
  }

  /** The text the regex sees after `--client_env=`, and the position of its last `=`. */
  lemma MatchedLine(word: string) returns (line: string, k: nat)
    requires ParseClientEnv(word).Some?
    ensures line == FirstLine(word[13..]) && k < |line| && line[k] == '='
    ensures '\n' !in line && forall j :: k < j < |line| ==> line[j] != '='
    ensures ParseClientEnv(word) == Some(Setting(line[..k], line[k + 1..]))
    ensures StartsWith(word, "--client_env=") && StartsWith(word[13..], line)
  {
    line := FirstLine(word[13..]);
    k := LastEquals(line);
    LastEqualsIsLast(line);
  }

  /** Every `--client_env` word has the `--client_env=key=value` shape; otherwise the source raises `ValueError`. */
  predicate EnvWellFormed(words: seq<string>)
  {
    forall word :: word in words && IsClientEnvWord(word) ==> ParseClientEnv(word).Some?
  }

  /** The setting a word contributes to `client_env`, if any. */
  function SettingOf(word: string): Option<Setting>
  {
    if IsClientEnvWord(word) then ParseClientEnv(word) else None
  }

  /** `settings[i]` sets `key`. */
  predicate SetsKey(settings: seq<Option<Setting>>, i: int, key: string)
    requires 0 <= i < |settings|
  {
    settings[i].Some? && settings[i].value.key == key
  }

  /** The settings applied in order to an empty environment. */
  function Apply(settings: seq<Option<Setting>>): map<string, string>
  {
    if settings == [] then map[]
    else
      var env, last := Apply(settings[..|settings| - 1]), settings[|settings| - 1];
      if last.Some? then env[last.value.key := last.value.value] else env
  }

  /** A key is set exactly when some setting sets it, and the last such setting decides its value. */
  lemma {:induction false} ApplyLastWins(settings: seq<Option<Setting>>, key: string)
    ensures key in Apply(settings) <==> exists i :: 0 <= i < |settings| && SetsKey(settings, i, key)
    ensures key in Apply(settings) ==> exists i :: (0 <= i < |settings| && settings[i] == Some(Setting(key, Apply(settings)[key]))
      && forall j :: i < j < |settings| ==> !SetsKey(settings, j, key))
  {
    if settings != [] {
      var n := |settings| - 1;
      var init := settings[..n];
      ApplyLastWins(init, key);
      assert forall i :: 0 <= i < n ==> settings[i] == init[i];
      if SetsKey(settings, n, key) {
        assert settings[n] == Some(Setting(key, Apply(settings)[key]));
      } else {
        assert key in Apply(settings) <==> key in Apply(init);
        assert key in Apply(init) ==> Apply(settings)[key] == Apply(init)[key];
        if key in Apply(init) {
          var i :| 0 <= i < n && init[i] == Some(Setting(key, Apply(init)[key]))
            && forall j :: i < j < n ==> !SetsKey(init, j, key);
          assert settings[i] == Some(Setting(key, Apply(settings)[key]));
          assert SetsKey(settings, i, key);
          forall j | i < j < |settings|
            ensures !SetsKey(settings, j, key)
          {
            if j < n {
              assert !SetsKey(init, j, key);
            }
          }
        } else {
          forall j | 0 <= j < |settings|
            ensures !SetsKey(settings, j, key)
          {
            if j < n {
              assert !SetsKey(init, j, key);
            }
          }
        }
      }
    }
  }

  /** The settings of the words, one per word. */
  function Settings(words: seq<string>): (r: seq<Option<Setting>>)
    ensures |r| == |words|
  {
    if words == [] then []
    else Settings(words[..|words| - 1]) + [SettingOf(words[|words| - 1])]
  }

  /** Each word's setting sits at the word's position. */
  lemma {:induction false} SettingsAt(words: seq<string>)
    ensures forall i :: 0 <= i < |words| ==> Settings(words)[i] == SettingOf(words[i])
  {
    if words != [] {
      SettingsAt(words[..|words| - 1]);
    }
  }

  /** `client_env` after the argument loop: each word's setting applied in order, so a later duplicate key wins. */
  function ClientEnv(words: seq<string>): map<string, string>
  {
    Apply(Settings(words))
  }

  lemma ClientEnvSnoc(words: seq<string>, word: string)
    ensures ClientEnv(words + [word]) == if SettingOf(word).Some? then ClientEnv(words)[SettingOf(word).value.key := SettingOf(word).value.value] else ClientEnv(words)
  {
    assert Settings(words + [word]) == Settings(words) + [SettingOf(word)];
    assert Settings(words + [word])[..|words|] == Settings(words);
  }

  /** A key is in `client_env` exactly when some word sets it, and the last word setting it gives its value. */
  lemma ClientEnvLastWins(words: seq<string>, key: string)
    ensures key in ClientEnv(words) <==> exists i :: 0 <= i < |words| && SettingOf(words[i]).Some? && SettingOf(words[i]).value.key == key
    ensures key in ClientEnv(words) ==> exists i :: (0 <= i < |words| && SettingOf(words[i]) == Some(Setting(key, ClientEnv(words)[key]))
      && forall j :: i < j < |words| ==> !(SettingOf(words[j]).Some? && SettingOf(words[j]).value.key == key))
  {
    var settings := Settings(words);
    SettingsAt(words);
    ApplyLastWins(settings, key);
    assert forall i :: 0 <= i < |words| ==> (SetsKey(settings, i, key) <==> SettingOf(words[i]).Some? && SettingOf(words[i]).value.key == key);
  }

  // ------------------------------------------------------------ argument lists

  /** A word that lands in `server_args` or `target_args`: neither a `--client_env` word nor the literal `--`. */
  predicate IsArg(word: string)
  {
    !IsClientEnvWord(word) && word != "--"
  }

  /** The words kept in the argument lists, in order. */
  function Keep(words: seq<string>): seq<string>
  {
    if words == [] then []
    else
      var init, last := words[..|words| - 1], words[|words| - 1];
      Keep(init) + (if IsArg(last) then [last] else [])
  }

  /** The kept words are exactly the words that are arguments. */
  lemma {:induction false} KeepMembers(words: seq<string>)
    ensures forall w :: w in Keep(words) <==> w in words && IsArg(w)
  {
    if words != [] {
      var init, last := words[..|words| - 1], words[|words| - 1];
      assert words == init + [last];
      KeepMembers(init);
    }
  }

  lemma {:induction false} KeepAppend(a: seq<string>, b: seq<string>)
    ensures Keep(a + b) == Keep(a) + Keep(b)
    decreases |b|
  {
    if b != [] {
      var b', last := b[..|b| - 1], b[|b| - 1];
      assert (a + b)[..|a + b| - 1] == a + b';
      KeepAppend(a, b');
    } else {
      assert a + b == a;
    }
  }

  /** The position of the first `--`, or the length when there is none. */
  function DashIndex(words: seq<string>): (i: nat)
    ensures i <= |words|
    ensures i < |words| ==> words[i] == "--"
  {
    if words == [] || words[0] == "--" then 0 else 1 + DashIndex(words[1..])
  }

  /** No word before the index is a `--`: it is the first one. */
  lemma {:induction false} DashIndexFirst(words: seq<string>)
    ensures forall k :: 0 <= k < DashIndex(words) ==> words[k] != "--"
  {
    if words != [] && words[0] != "--" {
      DashIndexFirst(words[1..]);
    }
  }

  /** `server_args`: the kept words before the first `--`. */
  function ServerArgs(words: seq<string>): seq<string>
  {
    Keep(words[..DashIndex(words)])
  }

  /** `target_args`: the kept words after the first `--`. */
  function TargetArgs(words: seq<string>): seq<string>
  {
    var i := DashIndex(words);
    if i < |words| then Keep(words[i + 1..]) else []
  }

  /** Keeping the words of a list cut in two keeps those of each part. */
  lemma KeepCut(words: seq<string>, i: nat)
    requires i <= |words|
    ensures Keep(words) == Keep(words[..i]) + Keep(words[i..])
  {
    assert words == words[..i] + words[i..];
    KeepAppend(words[..i], words[i..]);
  }

  /** A first word that is not an argument is dropped. */
  lemma KeepDropFirst(words: seq<string>)
    requires words != [] && !IsArg(words[0])
    ensures Keep(words) == Keep(words[1..])
  {
    KeepCut(words, 1);
    assert Keep(words[..1]) == Keep([]) + [];
  }

  /** Together the two lists are the kept words in their order: the split loses and reorders nothing. */
  lemma ArgsPartition(words: seq<string>)
    ensures ServerArgs(words) + TargetArgs(words) == Keep(words)
  {
    var i := DashIndex(words);
    if i < |words| {
      KeepCut(words, i);
      KeepDropFirst(words[i..]);
      assert words[i..][1..] == words[i + 1..];
    } else {
      assert words[..i] == words;
    }
  }

  /** Neither list holds a `--`. */
  lemma ArgsWithoutDash(words: seq<string>)
    ensures "--" !in ServerArgs(words) && "--" !in TargetArgs(words)
  {
    var i := DashIndex(words);
    KeepMembers(words[..i]);
    if i < |words| {
      KeepMembers(words[i + 1..]);
    }
  }

  /** How one more word changes the two lists. */
  lemma ArgsSnoc(words: seq<string>, word: string)
    ensures "--" in words ==> ServerArgs(words + [word]) == ServerArgs(words)
    ensures "--" in words ==> TargetArgs(words + [word]) == TargetArgs(words) + (if IsArg(word) then [word] else [])
    ensures "--" !in words ==> ServerArgs(words + [word]) == ServerArgs(words) + (if IsArg(word) then [word] else [])
    ensures "--" !in words ==> TargetArgs(words + [word]) == []
  {
    if "--" in words {
      ArgsSnocAfterDash(words, word);
    } else {
      ArgsSnocBeforeDash(words, word);
    }
  }

  /** After a `--` a further word can only join the target arguments. */
  lemma ArgsSnocAfterDash(words: seq<string>, word: string)
    requires "--" in words
    ensures ServerArgs(words + [word]) == ServerArgs(words)
    ensures TargetArgs(words + [word]) == TargetArgs(words) + (if IsArg(word) then [word] else [])
  {
    var ws := words + [word];
    var i := DashIndex(words);
    DashIndexFound(words);
    DashIndexPrefix(words, [word]);
    assert ws[..i] == words[..i];
    assert ws[i + 1..] == words[i + 1..] + [word];
    KeepAppend(words[i + 1..], [word]);
  }

  /** Before any `--` a word can only join the server arguments, and a `--` leaves the target arguments empty. */
  lemma ArgsSnocBeforeDash(words: seq<string>, word: string)
    requires "--" !in words
    ensures ServerArgs(words + [word]) == ServerArgs(words) + (if IsArg(word) then [word] else [])
    ensures TargetArgs(words + [word]) == []
  {
    var ws := words + [word];
    var i := DashIndex(words);
    assert i == |words|;
    DashIndexPrefix(words, [word]);
    assert words[..i] == words;
    if word == "--" {
      assert DashIndex(ws) == |words|;
      assert ws[..|words|] == words;
      assert ws[|words| + 1..] == [];
    } else {
      assert DashIndex(ws) == |ws|;
      assert ws[..|ws|] == ws;
      KeepAppend(words, [word]);
    }
  }

  /** What the argument loop has built from the words `done`, with `dashSeen` telling whether a `--` was among them. */
  ghost predicate ArgState(done: seq<string>, dashSeen: bool, serverArgs: seq<string>, targetArgs: seq<string>, clientEnv: map<string, string>)
  {
    && (dashSeen <==> "--" in done)
    && serverArgs == ServerArgs(done) && targetArgs == TargetArgs(done)
    && clientEnv == ClientEnv(done)
    && EnvWellFormed(done)
  }

  /** Before the first word the loop has built nothing. */
  lemma ArgStateEmpty()
    ensures ArgState([], false, [], [], map[])
  {
    assert Settings([]) == [];
  }

  /** How one more word of the argument loop changes what the loop has built. */
  lemma ArgumentStep(done: seq<string>, dashSeen: bool, serverArgs: seq<string>, targetArgs: seq<string>, clientEnv: map<string, string>, word: string)
    requires ArgState(done, dashSeen, serverArgs, targetArgs, clientEnv)
    ensures IsClientEnvWord(word) && ParseClientEnv(word).None? ==> !EnvWellFormed(done + [word])
    ensures IsClientEnvWord(word) && ParseClientEnv(word).Some? ==>
      var setting := ParseClientEnv(word).value;
      ArgState(done + [word], dashSeen, serverArgs, targetArgs, clientEnv[setting.key := setting.value])
    ensures word == "--" ==> ArgState(done + [word], true, serverArgs, targetArgs, clientEnv)
    ensures IsArg(word) && dashSeen ==> ArgState(done + [word], dashSeen, serverArgs, targetArgs + [word], clientEnv)
    ensures IsArg(word) && !dashSeen ==> ArgState(done + [word], dashSeen, serverArgs + [word], targetArgs, clientEnv)
  {
    ArgsSnoc(done, word);
    ClientEnvSnoc(done, word);
    assert "--" !in done ==> TargetArgs(done) == [];
    assert word in done + [word];
    assert forall w :: w in done + [word] <==> w in done || w == word;
  }

  lemma {:induction false} DashIndexFound(words: seq<string>)
    requires "--" in words
    ensures DashIndex(words) < |words|
  {
    if words[0] != "--" {
      assert "--" in words[1..];
      DashIndexFound(words[1..]);
    }
  }

  lemma {:induction false} DashIndexPrefix(a: seq<string>, b: seq<string>)
    ensures DashIndex(a) < |a| ==> DashIndex(a + b) == DashIndex(a)
    ensures DashIndex(a) == |a| ==> DashIndex(a + b) == |a| + DashIndex(b)
  {
    if a != [] && a[0] != "--" {
      assert (a + b)[1..] == a[1..] + b;
      DashIndexPrefix(a[1..], b);
    } else if a == [] {
      assert a + b == b;
    }
  }

  // ---------------------------------------------------------------- exceptions

  predicate IsCausedBy(line: string)
  {
    Contains(line, "Caused by:")
  }

  /** A line that opens or continues an exception block: a "Caused by:" line or one starting with a space. */
  predicate Continues(line: string)
  {
    IsCausedBy(line) || StartsWith(line, " ")
  }

  /** The variables of the exception loop: the recorded exceptions, `in_exception` and `current_exception`. */
  datatype ScanState = ScanState(exceptions: seq<string>, inException: bool, current: seq<string>)

  /** One round of the exception loop. */
  function Step(s: ScanState, line: string): ScanState
  {
    if IsCausedBy(line) then ScanState(s.exceptions, true, s.current + [line])
    else if s.inException && StartsWith(line, " ") then ScanState(s.exceptions, true, s.current + [line])
    else if s.inException then ScanState(s.exceptions + [Join(s.current, "\n")], false, [])
    else s
  }

  /** The loop's variables after it has seen `lines`. */
  function Scan(lines: seq<string>): ScanState
  {
    if lines == [] then ScanState([], false, [])
    else Step(Scan(lines[..|lines| - 1]), lines[|lines| - 1])
  }

  /** `lines[a..b]` is an exception block: a "Caused by:" line followed by continuation lines. */
  ghost predicate IsBlock(lines: seq<string>, a: int, b: int)
  {
    0 <= a < b <= |lines| && IsCausedBy(lines[a]) && forall k :: a <= k < b ==> Continues(lines[k])
  }

  /** While the loop is inside an exception, `current_exception` is the open block, which ends at the last line seen. */
  lemma {:induction false} OpenBlock(lines: seq<string>) returns (a: int)
    requires Scan(lines).inException
    ensures IsBlock(lines, a, |lines|) && Scan(lines).current == lines[a..]
  {
    var n := |lines| - 1;
    var init, line := lines[..n], lines[n];
    var s := Scan(init);
    if s.inException && Continues(line) {
      a := OpenBlock(init);
      assert lines[a..] == init[a..] + [line];
      assert forall k :: a <= k < n ==> lines[k] == init[k];
    } else {
      ClosedBlock(init);
      a := n;
      assert lines[n..] == [line];
    }
  }

  /** Outside an exception, `current_exception` is empty. */
  lemma {:induction false} ClosedBlock(lines: seq<string>)
    requires !Scan(lines).inException
    ensures Scan(lines).current == []
  {
    if lines != [] {
      var init := lines[..|lines| - 1];
      if !Scan(init).inException {
        ClosedBlock(init);
      }
    }
  }

  /**
   * Every exception the loop records is a block that starts at a
   * "Caused by:" line, takes in the continuation lines, and is closed by the
   * first line that does not continue it.  `ExceptionsAreClosedBlocks` below
   * gives the whole list: every closed block, once, in order.
   */
  lemma {:induction false} ScanShape(lines: seq<string>)
    ensures forall e :: e in Exceptions(lines) ==>
      exists a, b :: IsBlock(lines, a, b) && b < |lines| && !Continues(lines[b]) && e == Join(lines[a..b], "\n")
  {
    if lines != [] {
      var n := |lines| - 1;
      var init := lines[..n];
      var s := Scan(init);
      ScanShape(init);
      forall e | e in Exceptions(lines)
        ensures exists a, b :: IsBlock(lines, a, b) && b < |lines| && !Continues(lines[b]) && e == Join(lines[a..b], "\n")
      {
        if e in s.exceptions {
          assert e in Exceptions(init);
          var a, b :| IsBlock(init, a, b) && b < |init| && !Continues(init[b]) && e == Join(init[a..b], "\n");
          RecordedBlockExtends(init, lines, a, b);
        } else {
          var a := OpenBlock(init);
          RecordedBlockExtends(init, lines, a, n);
        }
      }
    }
  }

  /** A block of `init` is a block of any extension of it. */
  lemma RecordedBlockExtends(init: seq<string>, lines: seq<string>, a: int, b: int)
    requires init <= lines && IsBlock(init, a, b)
    ensures IsBlock(lines, a, b) && lines[a..b] == init[a..b]
  {
    assert forall k :: a <= k < b ==> lines[k] == init[k];
  }

  /** The exceptions recorded from a command's log lines. */
  function Exceptions(lines: seq<string>): seq<string>
  {
    Scan(lines).exceptions
  }

  // The exceptions described without the loop: one per line that closes a block.

  /** Where the run of continuation lines that ends just before line `b` starts. */
  function RunStart(lines: seq<string>, b: nat): (r: nat)
    requires b <= |lines|
    ensures r <= b && (r == 0 || !Continues(lines[r - 1]))
    ensures forall k :: r <= k < b ==> Continues(lines[k])
  {
    if b == 0 || !Continues(lines[b - 1]) then b else RunStart(lines, b - 1)
  }

  /** The first "Caused by:" line of `lines[a..b]`, or `b` when there is none. */
  function FirstCausedBy(lines: seq<string>, a: nat, b: nat): (r: nat)
    requires a <= b <= |lines|
    ensures a <= r <= b && (r < b ==> IsCausedBy(lines[r]))
    ensures forall k :: a <= k < r ==> !IsCausedBy(lines[k])
    decreases b - a
  {
    if a == b then b else if IsCausedBy(lines[a]) then a else FirstCausedBy(lines, a + 1, b)
  }

  /** Where the block open just before line `b` starts; `b` itself when no block is open. */
  function BlockStart(lines: seq<string>, b: nat): nat
    requires b <= |lines|
  {
    FirstCausedBy(lines, RunStart(lines, b), b)
  }

  /** Line `b` closes an exception block. */
  predicate Closes(lines: seq<string>, b: nat)
  {
    b < |lines| && !Continues(lines[b]) && BlockStart(lines, b) < b
  }

  /** The blocks closed by the first `n` lines, in the order of the lines closing them. */
  function ClosedBlocks(lines: seq<string>, n: nat): seq<string>
    requires n <= |lines|
  {
    if n == 0 then []
    else
      ClosedBlocks(lines, n - 1)
        + if Closes(lines, n - 1) then [Join(lines[BlockStart(lines, n - 1)..n - 1], "\n")] else []
  }

  /**
   * Line `b` closes a block exactly when it does not continue one and a block
   * ends just before it; the block recorded is the longest such block, so an
   * inner "Caused by:" line never starts a block of its own.
   */
  lemma BlockStartLeast(lines: seq<string>, b: nat)
    requires b < |lines|
    ensures Closes(lines, b) <==> !Continues(lines[b]) && exists a :: IsBlock(lines, a, b)
    ensures Closes(lines, b) ==> IsBlock(lines, BlockStart(lines, b), b)
    ensures forall a :: IsBlock(lines, a, b) ==> BlockStart(lines, b) <= a
  {
    if BlockStart(lines, b) < b {
      assert IsBlock(lines, BlockStart(lines, b), b);
    }
  }

  lemma FirstCausedBySnoc(lines: seq<string>, a: nat, b: nat)
    requires a <= b < |lines|
    ensures FirstCausedBy(lines, a, b + 1)
      == if FirstCausedBy(lines, a, b) < b then FirstCausedBy(lines, a, b)
         else if IsCausedBy(lines[b]) then b else b + 1
  {
    var f, f' := FirstCausedBy(lines, a, b), FirstCausedBy(lines, a, b + 1);
    if f < b {
      assert f' <= f;
    } else if IsCausedBy(lines[b]) {
      assert f' <= b;
    }
  }

  /** After the first `n` lines, the loop has recorded the blocks closed so far and holds the open one. */
  ghost predicate ScanMatches(lines: seq<string>, n: nat)
    requires n <= |lines|
  {
    var s := Scan(lines[..n]);
    s.exceptions == ClosedBlocks(lines, n)
      && (s.inException <==> BlockStart(lines, n) < n)
      && s.current == lines[BlockStart(lines, n)..n]
  }

  /** A line continuing a block: the open block, if any, takes it in, and nothing is recorded. */
  lemma ScanContinues(lines: seq<string>, m: nat)
    requires m < |lines| && Continues(lines[m]) && ScanMatches(lines, m)
    ensures ScanMatches(lines, m + 1)
  {
    assert lines[..m + 1][..m] == lines[..m];
    FirstCausedBySnoc(lines, RunStart(lines, m), m);
    assert lines[BlockStart(lines, m)..m + 1] == lines[BlockStart(lines, m)..m] + [lines[m]];
  }

  /** Any other line closes the open block, if any, and the loop records it. */
  lemma ScanBreaks(lines: seq<string>, m: nat)
    requires m < |lines| && !Continues(lines[m]) && ScanMatches(lines, m)
    ensures ScanMatches(lines, m + 1)
  {
    assert lines[..m + 1][..m] == lines[..m];
  }

  lemma {:induction false} ScanInvariant(lines: seq<string>, n: nat)
    requires n <= |lines|
    ensures ScanMatches(lines, n)
  {
    if n > 0 {
      ScanInvariant(lines, n - 1);
      if Continues(lines[n - 1]) {
        ScanContinues(lines, n - 1);
      } else {
        ScanBreaks(lines, n - 1);
      }
    }
  }

  /** The loop records exactly the closed blocks, each once, in order. */
  lemma ExceptionsAreClosedBlocks(lines: seq<string>)
    ensures Exceptions(lines) == ClosedBlocks(lines, |lines|)
  {
    ScanInvariant(lines, |lines|);
    assert lines[..|lines|] == lines;
  }

  /** A "Caused by:" line inside an open block is merged into it: the two make one recorded exception. */
  lemma MergedCausedBy(first: string, x: string, inner: string, y: string, end: string)
    requires IsCausedBy(first) && IsCausedBy(inner) && StartsWith(x, " ") && StartsWith(y, " ") && !Continues(end)
    ensures Exceptions([first, x, inner, y, end]) == [Join([first, x, inner, y], "\n")]
  {
    var lines := [first, x, inner, y, end];
    assert lines[..4][..3] == [first, x, inner];
    assert lines[..3][..2] == [first, x];
    assert lines[..2][..1] == [first];
    assert lines[..1][..0] == [];
    assert Scan(lines[..1]) == ScanState([], true, [first]);
    assert Scan(lines[..2]) == ScanState([], true, [first, x]);
    assert Scan(lines[..3]) == ScanState([], true, [first, x, inner]);
    assert Scan(lines[..4]) == ScanState([], true, [first, x, inner, y]);
    assert lines[..5] == lines;
  }

  // ------------------------------------------------------------------ command

  /** A parsed command: the attributes a `BazelCommand` holds once `__init__` returns. */
  datatype Command = Command(
    entry: string,
    serverArgs: seq<string>,
    clientEnv: map<string, string>,
    targetArgs: seq<string>,
    primitiveArgs: seq<string>,
    execCommand: string,
    commandLog: seq<string>,
    timestamp: Timestamp,
    exceptions: seq<string>)

  /** `BazelCommand(command_log)`: `None` where the constructor raises `ValueError`, or `IndexError` on an empty payload (rejected here, see `PayloadCorrection`). */
  function ParseCommand(log: seq<string>): Option<Command>
  {
    var registerLines, executeLines := LinesWith(log, RegisterMark), LinesWith(log, ExecuteMark);
    if |registerLines| != 1 || |executeLines| != 1 then None
    else
      var executeLine := executeLines[0];
      match ParseTimestamp(executeLine)
      case None => None
      case Some(timestamp) =>
        match Payload(executeLine)
        case None => None
        case Some(allArgs) =>
          var words := allArgs[1..];
          if !EnvWellFormed(words) then None
          else Some(Command(allArgs[0], ServerArgs(words), ClientEnv(words), TargetArgs(words), allArgs,
                            executeLine, log, timestamp, Exceptions(log)))
  }

  /** A group without exactly one `registerCommand` line and exactly one `executeCommand` line is rejected. */
  lemma RejectsMarkerCounts(log: seq<string>)
    requires |LinesWith(log, RegisterMark)| != 1 || |LinesWith(log, ExecuteMark)| != 1
    ensures ParseCommand(log).None?
  {
  }

  /**
   * What an accepted command satisfies: its log has one line of each
   * marker, the `executeCommand` line is in it and splits in two at the
   * marker, the payload was bracketed, the entry is the first payload word
   * and the argument lists hold the other words in order, less the
   * `--client_env` words and every `--`.
   */
  lemma AcceptedCommand(log: seq<string>)
    requires ParseCommand(log).Some?
    ensures var c := ParseCommand(log).value;
      && c.execCommand in log && IsExecute(c.execCommand)
      && (forall line :: line in log && IsExecute(line) ==> line == c.execCommand)
      && |LinesWith(log, RegisterMark)| == 1
      && |Split(c.execCommand, ExecuteMark)| == 2
      && "[" + Join(c.primitiveArgs, ", ") + "]" == Strip(Split(c.execCommand, ExecuteMark)[1])
      && c.entry == c.primitiveArgs[0]
      && c.serverArgs + c.targetArgs == Keep(c.primitiveArgs[1..])
      && EnvWellFormed(c.primitiveArgs[1..])
  {
    var c := ParseCommand(log).value;
    LinesWithOne(log, ExecuteMark);
    assert Payload(c.execCommand) == Some(c.primitiveArgs);
    PayloadBrackets(c.execCommand);
    ArgsPartition(c.primitiveArgs[1..]);
  }

  /** A malformed `--client_env` word anywhere after the entry, even after `--`, rejects the command. */
  lemma RejectsMalformedEnv(log: seq<string>, allArgs: seq<string>, i: nat)
    requires |LinesWith(log, RegisterMark)| == 1 && |LinesWith(log, ExecuteMark)| == 1
    requires Payload(LinesWith(log, ExecuteMark)[0]) == Some(allArgs)
    requires 1 <= i < |allArgs| && IsClientEnvWord(allArgs[i]) && ParseClientEnv(allArgs[i]).None?
    ensures ParseCommand(log).None?
  {
    assert allArgs[i] in allArgs[1..];
  }

  /** A malformed word in a prefix is a malformed word of the whole list. */
  lemma EnvWellFormedPrefix(words: seq<string>, prefix: seq<string>)
    requires prefix <= words && !EnvWellFormed(prefix)
    ensures !EnvWellFormed(words)
  {
    var word :| word in prefix && IsClientEnvWord(word) && ParseClientEnv(word).None?;
    assert word in words;
  }

  /**
   * The body of the argument loop for one word after the entry; `ok` is
   * false where the source raises `ValueError`.
   */
  method ArgumentWord(ghost done: seq<string>, word: string, dashSeen: bool, serverArgs: seq<string>, targetArgs: seq<string>, clientEnv: map<string, string>)
    returns (ok: bool, dashSeen': bool, serverArgs': seq<string>, targetArgs': seq<string>, clientEnv': map<string, string>)
    requires ArgState(done, dashSeen, serverArgs, targetArgs, clientEnv)
    ensures ok <==> EnvWellFormed(done + [word])
    ensures ok ==> ArgState(done + [word], dashSeen', serverArgs', targetArgs', clientEnv')
  {
    ok, dashSeen', serverArgs', targetArgs', clientEnv' := true, dashSeen, serverArgs, targetArgs, clientEnv;
    ArgumentStep(done, dashSeen, serverArgs, targetArgs, clientEnv, word);
    if StartsWith(word, "--client_env") {
      var setting := ParseClientEnv(word);
      if setting.Some? {
        clientEnv' := clientEnv[setting.value.key := setting.value.value];
      } else {
        ok := false;
      }
    } else if word == "--" {
      dashSeen' := true;
    } else if dashSeen {
      targetArgs' := targetArgs + [word];
    } else {
      serverArgs' := serverArgs + [word];
    }
  }

  /**
   * The loop over the payload words after the entry: `--client_env` words
   * go to the environment; the first `--` switches from server to target
   * arguments and every `--` is dropped.  `ok` is false where a
   * `--client_env` word does not match and the source raises `ValueError`.
   */
  method ArgumentLoop(allArgs: seq<string>) returns (ok: bool, serverArgs: seq<string>, targetArgs: seq<string>, clientEnv: map<string, string>)
    requires |allArgs| >= 1
    ensures ok <==> EnvWellFormed(allArgs[1..])
    ensures ok ==> serverArgs == ServerArgs(allArgs[1..]) && targetArgs == TargetArgs(allArgs[1..])
    ensures ok ==> clientEnv == ClientEnv(allArgs[1..])
  {
    ghost var words := allArgs[1..];
    serverArgs, targetArgs, clientEnv := [], [], map[];
    var clientArgsStart := false;
    ArgStateEmpty();
    for i := 1 to |allArgs|
      invariant ArgState(words[..i - 1], clientArgsStart, serverArgs, targetArgs, clientEnv)
    {
      ghost var done := words[..i - 1];
      assert words[..i] == done + [allArgs[i]];
      var accepted;
      accepted, clientArgsStart, serverArgs, targetArgs, clientEnv := ArgumentWord(done, allArgs[i], clientArgsStart, serverArgs, targetArgs, clientEnv);
      if !accepted {
        EnvWellFormedPrefix(words, words[..i]);
        return false, serverArgs, targetArgs, clientEnv;
      }
    }
    assert words[..|words|] == words;
    ok := true;
  }

  // -------------------------------------------------------------------- class

  /** The parsed command, with its attributes filled in place as `__init__` does. */
  class BazelCommand {
    var entry: string
    var serverArgs: seq<string>
    var clientEnv: map<string, string>
    var targetArgs: seq<string>
    var primitiveArgs: seq<string>
    var execCommand: string
    var commandLog: seq<string>
    var timestamp: Timestamp
    var exceptions: seq<string>

    /** The attributes as a value. */
    function Snapshot(): Command
      reads this
    {
      Command(entry, serverArgs, clientEnv, targetArgs, primitiveArgs, execCommand, commandLog, timestamp, exceptions)
    }

    constructor ()
      ensures Snapshot() == Command("", [], map[], [], [], "", [], Timestamp(1970, 1, 1, 0, 0, 0, 0), [])
    {
      entry, serverArgs, clientEnv, targetArgs, primitiveArgs := "", [], map[], [], [];
      execCommand, commandLog, timestamp, exceptions := "", [], Timestamp(1970, 1, 1, 0, 0, 0, 0), [];
    }

    /**
     * `__init__(command_log)`: returns false where the source raises
     * `ValueError`, or `IndexError` on an empty payload (rejected here, see
     * `PayloadCorrection`); on success the attributes are those of the parsed
     * command.
     */
    method Init(log: seq<string>) returns (ok: bool)
      modifies this
      ensures ok <==> ParseCommand(log).Some?
      ensures ok ==> Snapshot() == ParseCommand(log).value
    {
      var registerLines := LinesWith(log, RegisterMark);
      var executeLines := LinesWith(log, ExecuteMark);
      if |registerLines| != 1 || |executeLines| != 1 {
        return false;
      }
      var executeLine := executeLines[0];
      var stamp := ParseTimestamp(executeLine);
      if stamp.None? {
        return false;
      }
      var payload := Payload(executeLine);
      if payload.None? {
        return false;
      }
      var allArgs := payload.value;
      var server, target, env;
      ok, server, target, env := ArgumentLoop(allArgs);
      if !ok {
        return false;
      }
      ghost var expected := Command(allArgs[0], server, env, target, allArgs, executeLine, log, stamp.value, Exceptions(log));
      assert ParseCommand(log) == Some(expected);

      execCommand, commandLog, timestamp, primitiveArgs := executeLine, log, stamp.value, allArgs;
      entry, serverArgs, targetArgs, clientEnv := allArgs[0], server, target, env;
      assert Snapshot().(exceptions := Exceptions(log)) == expected;
      CollectExceptions();
    }

    /** The exception loop over the command's log lines. */
    method CollectExceptions()
      modifies this
      ensures Snapshot() == old(Snapshot()).(exceptions := Exceptions(old(commandLog)))
    {
      exceptions := [];
      var inException := false;
      var currentException: seq<string> := [];
      for i := 0 to |commandLog|
        invariant Snapshot() == old(Snapshot()).(exceptions := exceptions)
        invariant ScanState(exceptions, inException, currentException) == Scan(commandLog[..i])
      {
        var line := commandLog[i];
        assert commandLog[..i + 1][..i] == commandLog[..i];
        if Contains(line, "Caused by:") {
          inException := true;
          currentException := currentException + [line];
          continue;
        }
        if inException {
          if StartsWith(line, " ") {
            currentException := currentException + [line];
          } else {
            exceptions := exceptions + [Join(currentException, "\n")];
            currentException := [];
            inException := false;
          }
        }
      }
      assert commandLog[..|commandLog|] == commandLog;
    }
  }
}
