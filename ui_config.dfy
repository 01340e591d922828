/**
  The configuration switch of `vulkan/ui_window_manager.cpp`: the ASCII
  `toLower` and the line scan of `readProjectConfig` that decides whether the
  separate UI windows are enabled. A configuration file is the sequence of its
  lines as `std::getline` yields them; a file that cannot be opened is `None`.
 */
module UiConfig {
  import opened Wrappers

  /** The key a deciding line starts with; its value is everything after these 18 characters. */
  const ConfigKey: string := "enable_ui_windows="

  /** The values that switch the windows on, and off, once lowercased. */
  const OnWords: set<string> := {"true", "1", "yes"}
  const OffWords: set<string> := {"false", "0", "no"}

  /** One character through `toLower`: ASCII upper case to lower case, anything else as is. */
  function LowerChar(c: char): (l: char) {
    if 'A' <= c <= 'Z' then (c as int - 'A' as int + 'a' as int) as char else c
  }

  /** The whole string through `toLower`. */
  function Lowered(s: string): (r: string) {
    if s == [] then [] else Lowered(s[..|s| - 1]) + [LowerChar(s[|s| - 1])]
  }

  /** `Lowered` keeps the length and works character by character. */
  lemma {:induction false} LoweredPointwise(s: string)
    ensures |Lowered(s)| == |s|
    ensures forall i :: 0 <= i < |s| ==> Lowered(s)[i] == LowerChar(s[i])
  {
    if s != [] {
      LoweredPointwise(s[..|s| - 1]);
    }
  }

  /**
    `toLower` on the characters it produces: an upper-case letter becomes the
    corresponding lower-case one and every other character stays, so the
    result holds no upper-case letter.
   */
  lemma {:induction false} LoweredLetters(s: string)
    ensures |Lowered(s)| == |s|
    ensures forall i :: 0 <= i < |s| && 'A' <= s[i] <= 'Z' ==>
      Lowered(s)[i] as int == s[i] as int + 32
    ensures forall i :: 0 <= i < |s| && !('A' <= s[i] <= 'Z') ==> Lowered(s)[i] == s[i]
    ensures forall i :: 0 <= i < |s| ==> !('A' <= Lowered(s)[i] <= 'Z')
  {
    LoweredPointwise(s);
  }

  /** Lowercasing twice is lowercasing once. */
  lemma {:induction false} LoweredIdempotent(s: string)
    ensures Lowered(Lowered(s)) == Lowered(s)
  {
    LoweredPointwise(s);
    LoweredPointwise(Lowered(s));
  }

  /**
    `toLower`: copies the string and rewrites each upper-case ASCII letter of
    the copy in place.
   */
  method ToLower(str: string) returns (result: string)
    ensures |result| == |str|
    ensures forall i :: 0 <= i < |str| ==>
      if 'A' <= str[i] <= 'Z' then result[i] as int == str[i] as int - 'A' as int + 'a' as int
      else result[i] == str[i]
    ensures result == Lowered(str)
  {
    result := str;
    for i := 0 to |result|
      invariant |result| == |str|
      invariant forall j :: 0 <= j < i ==> result[j] == LowerChar(str[j])
      invariant forall j :: i <= j < |str| ==> result[j] == str[j]
    {
      if 'A' <= result[i] <= 'Z' {
        result := result[i := (result[i] as int - 'A' as int + 'a' as int) as char];
      }
    }
    LoweredPointwise(str);
  }

  /** What one line does to the decision. */
  datatype LineEffect = SwitchesOn | SwitchesOff | NoEffect

  /** Whether the line starts with the key, which is `line.find("enable_ui_windows=") == 0`. */
  predicate HasKey(line: string) {
    |line| >= |ConfigKey| && line[..|ConfigKey|] == ConfigKey
  }

  /**
    The effect of one line: a line that starts with the key and whose value,
    lowercased, is an on-word or an off-word decides; any other line is skipped.
   */
  function EffectOf(line: string): (e: LineEffect)
    ensures e != NoEffect ==> HasKey(line)
    ensures e == SwitchesOn ==> Lowered(line[|ConfigKey|..]) in OnWords
    ensures e == SwitchesOff ==> Lowered(line[|ConfigKey|..]) in OffWords
    ensures HasKey(line) && Lowered(line[|ConfigKey|..]) in OnWords ==> e == SwitchesOn
    ensures HasKey(line) && Lowered(line[|ConfigKey|..]) in OffWords ==> e == SwitchesOff
  {
    if !HasKey(line) then NoEffect
    else
      var value := Lowered(line[|ConfigKey|..]);
      if value in OnWords then SwitchesOn
      else if value in OffWords then SwitchesOff
      else NoEffect
  }

  /** The key is matched exactly; only the value is read without regard to case. */
  lemma {:induction false} ValueCaseInsensitive(value: string)
    ensures EffectOf(ConfigKey + value) == EffectOf(ConfigKey + Lowered(value))
  {
    var a, b := ConfigKey + value, ConfigKey + Lowered(value);
    assert a[..|ConfigKey|] == ConfigKey && a[|ConfigKey|..] == value;
    assert b[..|ConfigKey|] == ConfigKey && b[|ConfigKey|..] == Lowered(value);
    LoweredIdempotent(value);
  }

  /** The decision of a scan over `lines`: the first deciding line, or `fallback`. */
  function Scan(lines: seq<string>, fallback: bool): (enabled: bool) {
    if lines == [] then fallback
    else
      match EffectOf(lines[0])
      case SwitchesOn => true
      case SwitchesOff => false
      case NoEffect => Scan(lines[1..], fallback)
  }

  /** The first deciding line fixes the outcome, whatever follows it. */
  lemma {:induction false} FirstDecidingLineWins(lines: seq<string>, fallback: bool, i: nat)
    requires i < |lines| && EffectOf(lines[i]) != NoEffect
    requires forall j :: 0 <= j < i ==> EffectOf(lines[j]) == NoEffect
    ensures Scan(lines, fallback) == (EffectOf(lines[i]) == SwitchesOn)
  {
    if i > 0 {
      assert EffectOf(lines[0]) == NoEffect;
      FirstDecidingLineWins(lines[1..], fallback, i - 1);
    }
  }

  /** With no deciding line at all the outcome is the fallback. */
  lemma {:induction false} NoDecidingLine(lines: seq<string>, fallback: bool)
    requires forall j :: 0 <= j < |lines| ==> EffectOf(lines[j]) == NoEffect
    ensures Scan(lines, fallback) == fallback
  {
    if lines != [] {
      NoDecidingLine(lines[1..], fallback);
    }
  }

  /** A line without effect can be inserted anywhere without changing the outcome. */
  lemma {:induction false} IgnoredLineIrrelevant(before: seq<string>, line: string, after: seq<string>, fallback: bool)
    requires EffectOf(line) == NoEffect
    ensures Scan(before + [line] + after, fallback) == Scan(before + after, fallback)
  {
    if before == [] {
      assert (before + [line] + after)[1..] == after;
      assert before + after == after;
    } else {
      assert (before + [line] + after)[0] == before[0];
      assert (before + after)[0] == before[0];
      assert (before + [line] + after)[1..] == before[1..] + [line] + after;
      assert (before + after)[1..] == before[1..] + after;
      IgnoredLineIrrelevant(before[1..], line, after, fallback);
    }
  }

  /**
    `readProjectConfig` as a function of what the two files hold: the file in
    the current directory if it opens, else the one in the parent directory,
    else the compile-time default.
   */
  function ProjectConfig(cwd: Option<seq<string>>, parent: Option<seq<string>>, enabledByDefault: bool): (enabled: bool) {
    match cwd
    case Some(lines) => Scan(lines, enabledByDefault)
    case None =>
      match parent
      case Some(lines) => Scan(lines, enabledByDefault)
      case None => enabledByDefault
  }

  /**
    `readProjectConfig`: picks the file that opens, then reads it line by line
    and returns at the first line that decides.
   */
  method ReadProjectConfig(cwd: Option<seq<string>>, parent: Option<seq<string>>, enabledByDefault: bool)
    returns (enabled: bool)
    ensures enabled == ProjectConfig(cwd, parent, enabledByDefault)
  {
    var lines: seq<string>;
    if cwd.Some? {
      lines := cwd.value;
    } else if parent.Some? {
      lines := parent.value;
    } else {
      return enabledByDefault;
    }
    var i := 0;
    while i < |lines|
      invariant 0 <= i <= |lines|
      invariant Scan(lines[i..], enabledByDefault) == Scan(lines, enabledByDefault)
    {
      var line := lines[i];
      if |line| >= |ConfigKey| && line[..|ConfigKey|] == ConfigKey {
        var value := line[|ConfigKey|..];
        var lowerValue := ToLower(value);
        // Membership in a three-word set is the source's chain of three comparisons.
        if lowerValue in OnWords {
          return true;
        } else if lowerValue in OffWords {
          return false;
        }
      }
      i := i + 1;
    }
    return enabledByDefault;
  }
}
