/**
 Rewriting `.env` (scripts/google-ads-oauth.py): `save_env` replaces five names in
 the file, `env_value` reads one back.
 */
module EnvFile {
  import opened Prelude

  // ----- Python's text operations ------------------------------------------------

  /** The characters `str.splitlines` breaks at; a carriage return has already been
      translated by the time the text is read. */
  predicate IsBreak(c: char) {
    var n := c as int;
    10 <= n <= 13 || 28 <= n <= 30 || n == 0x85 || n == 0x2028 || n == 0x2029
  }

  /** The characters `str.strip` removes. */
  predicate IsSpace(c: char) {
    var n := c as int;
    9 <= n <= 13 || 28 <= n <= 32 || n == 0x85 || n == 0xA0 || n == 0x1680 || 0x2000 <= n <= 0x200A
    || n == 0x2028 || n == 0x2029 || n == 0x202F || n == 0x205F || n == 0x3000
  }

  predicate IsQuote(c: char) {
    c == '\'' || c == '"'
  }

  /** The first line and what follows its break. A last line may end without one. */
  function FirstLine(text: string): (r: (string, string))
    requires text != []
    ensures |r.1| < |text|
  {
    if IsBreak(text[0]) then
      if text[0] == '\r' && |text| > 1 && text[1] == '\n' then ([], text[2..]) else ([], text[1..])
    else if |text| == 1 then (text, [])
    else
      var (line, rest) := FirstLine(text[1..]);
      ([text[0]] + line, rest)
  }

  function SplitLines(text: string): seq<string>
    decreases |text|
  {
    if text == [] then [] else [FirstLine(text).0] + SplitLines(FirstLine(text).1)
  }

  function RStrip(s: string, drop: char -> bool): string {
    if s != [] && drop(s[|s| - 1]) then RStrip(s[..|s| - 1], drop) else s
  }

  function LStrip(s: string, drop: char -> bool): string {
    if s != [] && drop(s[0]) then LStrip(s[1..], drop) else s
  }

  function Strip(s: string, drop: char -> bool): string {
    LStrip(RStrip(s, drop), drop)
  }

  /** `'\n'.join(lines)` */
  function Join(lines: seq<string>): string {
    if lines == [] then []
    else if |lines| == 1 then lines[0]
    else lines[0] + ['\n'] + Join(lines[1..])
  }

  /** Everything before the first '='; the whole line when there is none. */
  function KeyOf(line: string): string {
    if line == [] || line[0] == '=' then [] else [line[0]] + KeyOf(line[1..])
  }

  /** Everything after the first '='. */
  function AfterKey(line: string): string {
    if line == [] then [] else if line[0] == '=' then line[1..] else AfterKey(line[1..])
  }

  predicate StartsWith(line: string, prefix: string) {
    prefix <= line
  }

  // ----- saving --------------------------------------------------------------------

  type Pairs = seq<(string, string)>

  /** The names to write, in the order the dictionary holds them. The customer id is
      left alone when discovery never named one. */
  function Wanted(
    developerToken: string, clientId: string, clientSecret: string, refreshToken: string, customerId: string): Pairs
  {
    [ ("GOOGLE_ADS_DEVELOPER_TOKEN", developerToken),
      ("GOOGLE_ADS_CLIENT_ID", clientId),
      ("GOOGLE_ADS_CLIENT_SECRET", clientSecret),
      ("GOOGLE_ADS_REFRESH_TOKEN", refreshToken) ]
    + if customerId == "" then [] else [("GOOGLE_ADS_CUSTOMER_ID", customerId)]
  }

  predicate Named(wanted: Pairs, name: string) {
    exists i :: 0 <= i < |wanted| && wanted[i].0 == name
  }

  function Kept(lines: seq<string>, wanted: Pairs): seq<string> {
    if lines == [] then []
    else (if Named(wanted, KeyOf(lines[0])) then [] else [lines[0]]) + Kept(lines[1..], wanted)
  }

  function Written(wanted: Pairs): seq<string> {
    seq(|wanted|, i requires 0 <= i < |wanted| => wanted[i].0 + "=" + wanted[i].1)
  }

  function Saved(text: Option<string>, wanted: Pairs): string {
    RStrip(Join(Kept(SplitLines(text.GetOr("")), wanted) + Written(wanted)), IsSpace) + "\n"
  }

  /** The value of the first line that begins `name=`, without outer space or quotes. */
  function ValueIn(lines: seq<string>, name: string): string {
    if lines == [] then ""
    else if StartsWith(lines[0], name + "=") then Strip(Strip(AfterKey(lines[0]), IsSpace), IsQuote)
    else ValueIn(lines[1..], name)
  }

  function EnvValue(environment: map<string, string>, text: Option<string>, name: string): string {
    if name in environment && environment[name] != "" then environment[name]
    else ValueIn(SplitLines(text.GetOr("")), name)
  }

  /** What readers find after a save. */
  ghost predicate ReadsAsSaved(before: Option<string>, after: Option<string>, wanted: Pairs) {
    var lines := SplitLines(after.GetOr(""));
    && (forall k :: 0 <= k < |wanted| ==> ValueIn(lines, wanted[k].0) == Strip(Strip(wanted[k].1, IsSpace), IsQuote))
    && (forall name :: !Named(wanted, KeyOf(name)) ==>
         ValueIn(lines, name) == ValueIn(SplitLines(before.GetOr("")), name))
    && Some(Saved(after, wanted)) == after
  }

  // ----- splitting what was joined ----------------------------------------------------

  predicate OneLine(line: string) {
    forall i :: 0 <= i < |line| ==> !IsBreak(line[i])
  }

  predicate OneLineEach(lines: seq<string>) {
    forall i :: 0 <= i < |lines| ==> OneLine(lines[i])
  }

  lemma {:induction false} FirstLineIsOneLine(text: string)
    requires text != []
    ensures OneLine(FirstLine(text).0)
    decreases |text|
  {
    if !IsBreak(text[0]) && |text| > 1 {
      FirstLineIsOneLine(text[1..]);
    }
  }

  lemma {:induction false} SplitIsOneLineEach(text: string)
    ensures OneLineEach(SplitLines(text))
    decreases |text|
  {
    if text != [] {
      FirstLineIsOneLine(text);
      SplitIsOneLineEach(FirstLine(text).1);
    }
  }

  lemma {:induction false} FirstLineOf(line: string, rest: string)
    requires OneLine(line)
    ensures FirstLine(line + ['\n'] + rest) == (line, rest)
    decreases |line|
  {
    var text := line + ['\n'] + rest;
    if line == [] {
      assert text[1..] == rest;
    } else {
      assert text[1..] == line[1..] + ['\n'] + rest;
      FirstLineOf(line[1..], rest);
      assert [line[0]] + line[1..] == line;
    }
  }

  /** Lines that hold no break come back as they were. */
  lemma {:induction false} SplitJoin(lines: seq<string>)
    requires OneLineEach(lines) && lines != []
    ensures SplitLines(Join(lines) + "\n") == lines
    decreases |lines|
  {
    if |lines| == 1 {
      assert Join(lines) + "\n" == lines[0] + ['\n'] + [];
      FirstLineOf(lines[0], []);
      assert SplitLines([]) == [];
    } else {
      var rest := Join(lines[1..]) + "\n";
      assert Join(lines) + "\n" == lines[0] + ['\n'] + rest;
      FirstLineOf(lines[0], rest);
      SplitJoin(lines[1..]);
    }
  }

  // ----- the trailing strip touches only the last line -----------------------------------

  lemma {:induction false} RStripKeeps(front: string, last: string, drop: char -> bool)
    requires exists i :: 0 <= i < |last| && !drop(last[i])
    ensures RStrip(front + last, drop) == front + RStrip(last, drop)
    ensures RStrip(last, drop) != []
    decreases |last|
  {
    var c := last[|last| - 1];
    if drop(c) {
      assert (front + last)[..|front + last| - 1] == front + last[..|last| - 1];
      var i :| 0 <= i < |last| && !drop(last[i]);
      assert last[..|last| - 1][i] == last[i];
      RStripKeeps(front, last[..|last| - 1], drop);
    }
  }

  /** Not all white space. */
  predicate Inked(s: string) {
    exists i :: 0 <= i < |s| && !IsSpace(s[i])
  }

  lemma {:induction false} JoinLast(lines: seq<string>, last: string)
    ensures lines == [] ==> Join(lines + [last]) == last
    ensures lines != [] ==> Join(lines + [last]) == Join(lines) + ['\n'] + last
    decreases |lines|
  {
    if lines != [] {
      assert (lines + [last])[1..] == lines[1..] + [last];
      JoinLast(lines[1..], last);
    }
  }

  lemma JoinStripped(lines: seq<string>, last: string)
    requires Inked(last)
    ensures RStrip(Join(lines + [last]), IsSpace) == Join(lines + [RStrip(last, IsSpace)])
  {
    JoinLast(lines, last);
    JoinLast(lines, RStrip(last, IsSpace));
    if lines == [] {
    } else {
      RStripKeeps(Join(lines) + ['\n'], last, IsSpace);
    }
  }

  // ----- what the file holds after a save ------------------------------------------------

  predicate NameLike(name: string) {
    OneLine(name) && '=' !in name
  }

  /** Distinct names without '=' and values without line breaks. */
  predicate Savable(wanted: Pairs) {
    && wanted != []
    && (forall i :: 0 <= i < |wanted| ==> NameLike(wanted[i].0) && OneLine(wanted[i].1))
    && (forall i, j :: 0 <= i < j < |wanted| ==> wanted[i].0 != wanted[j].0)
  }

  function Line(name: string, value: string): string {
    name + "=" + value
  }

  /** The written lines as they end up in the file: the last one loses trailing space. */
  function Settled(wanted: Pairs): seq<string>
    requires wanted != []
  {
    seq(|wanted|, i requires 0 <= i < |wanted| =>
      Line(wanted[i].0, if i == |wanted| - 1 then RStrip(wanted[i].1, IsSpace) else wanted[i].1))
  }

  lemma {:induction false} RStripAfter(c: char, v: string, drop: char -> bool)
    requires !drop(c)
    ensures RStrip([c] + v, drop) == [c] + RStrip(v, drop)
    decreases |v|
  {
    if v != [] && drop(v[|v| - 1]) {
      assert ([c] + v)[..|v|] == [c] + v[..|v| - 1];
      RStripAfter(c, v[..|v| - 1], drop);
    }
  }

  lemma LastLineStripped(name: string, value: string)
    ensures RStrip(Line(name, value), IsSpace) == Line(name, RStrip(value, IsSpace))
    ensures Inked(Line(name, value))
  {
    assert Line(name, value) == name + (['='] + value);
    assert (['='] + value)[0] == '=' && Line(name, value)[|name|] == '=';
    RStripKeeps(name, ['='] + value, IsSpace);
    RStripAfter('=', value, IsSpace);
  }

  lemma {:induction false} RStripIsPrefix(s: string, drop: char -> bool)
    ensures RStrip(s, drop) <= s
    ensures RStrip(RStrip(s, drop), drop) == RStrip(s, drop)
    decreases |s|
  {
    if s != [] && drop(s[|s| - 1]) {
      RStripIsPrefix(s[..|s| - 1], drop);
    }
  }

  lemma SettledIsOneLineEach(wanted: Pairs)
    requires Savable(wanted)
    ensures OneLineEach(Settled(wanted))
  {
    RStripIsPrefix(wanted[|wanted| - 1].1, IsSpace);
  }

  lemma {:induction false} KeptIsOneLineEach(lines: seq<string>, wanted: Pairs)
    requires OneLineEach(lines)
    ensures OneLineEach(Kept(lines, wanted))
  {
    if lines != [] {
      KeptIsOneLineEach(lines[1..], wanted);
    }
  }

  /** The file after a save, read as lines. */
  function After(text: Option<string>, wanted: Pairs): seq<string>
    requires wanted != []
  {
    Kept(SplitLines(text.GetOr("")), wanted) + Settled(wanted)
  }

  lemma AfterIsOneLineEach(text: Option<string>, wanted: Pairs)
    requires Savable(wanted)
    ensures OneLineEach(After(text, wanted))
  {
    SplitIsOneLineEach(text.GetOr(""));
    KeptIsOneLineEach(SplitLines(text.GetOr("")), wanted);
    SettledIsOneLineEach(wanted);
  }

  lemma SavedIsJoined(text: Option<string>, wanted: Pairs)
    requires Savable(wanted)
    ensures Saved(text, wanted) == Join(After(text, wanted)) + "\n"
  {
    var n, kept := |wanted|, Kept(SplitLines(text.GetOr("")), wanted);
    var front, last := kept + Written(wanted)[..n - 1], Written(wanted)[n - 1];
    WrittenEnds(wanted);
    assert kept + Written(wanted) == front + [last];
    assert After(text, wanted) == front + [RStrip(last, IsSpace)];
    JoinStripped(front, last);
  }

  /** The written lines are the settled ones, but for the end of the last. */
  lemma WrittenEnds(wanted: Pairs)
    requires Savable(wanted)
    ensures var n := |wanted|;
      Settled(wanted) == Written(wanted)[..n - 1] + [RStrip(Written(wanted)[n - 1], IsSpace)]
    ensures Inked(Written(wanted)[|wanted| - 1])
  {
    var n := |wanted|;
    LastLineStripped(wanted[n - 1].0, wanted[n - 1].1);
  }

  lemma SavedLines(text: Option<string>, wanted: Pairs)
    requires Savable(wanted)
    ensures Saved(text, wanted) == Join(After(text, wanted)) + "\n"
    ensures SplitLines(Saved(text, wanted)) == After(text, wanted)
  {
    SavedIsJoined(text, wanted);
    AfterIsOneLineEach(text, wanted);
    SplitJoin(After(text, wanted));
  }

  // ----- reading a name ---------------------------------------------------------------------

  lemma {:induction false} KeyOfLine(name: string, rest: string)
    ensures KeyOf(name + "=" + rest) == KeyOf(name)
    ensures '=' !in name ==> KeyOf(name) == name
  {
    var line := name + "=" + rest;
    if name == [] {
      assert line[0] == '=';
    } else {
      assert line[0] == name[0] && line[1..] == name[1..] + "=" + rest;
      KeyOfLine(name[1..], rest);
    }
  }

  lemma {:induction false} AfterKeyOfLine(name: string, rest: string)
    requires '=' !in name
    ensures AfterKey(name + "=" + rest) == rest
  {
    var line := name + "=" + rest;
    if name == [] {
      assert line[0] == '=' && line[1..] == rest;
    } else {
      assert line[0] == name[0] && line[1..] == name[1..] + "=" + rest;
      AfterKeyOfLine(name[1..], rest);
    }
  }

  /** A line that begins `name=` is filed under the key of that name. */
  lemma StartsWithItsKey(line: string, name: string)
    requires StartsWith(line, name + "=")
    ensures KeyOf(line) == KeyOf(name)
    ensures '=' !in name ==> KeyOf(line) == name
  {
    assert line == name + "=" + line[|name| + 1..];
    KeyOfLine(name, line[|name| + 1..]);
  }

  /** No line is about the name. */
  predicate Silent(lines: seq<string>, name: string) {
    forall i :: 0 <= i < |lines| ==> !StartsWith(lines[i], name + "=")
  }

  lemma SpeaksBy(lines: seq<string>, name: string, i: nat, j: nat)
    requires i < j <= |lines| && StartsWith(lines[i], name + "=")
    ensures !Silent(lines[..j], name)
  {
    assert lines[..j][i] == lines[i];
  }

  /** Only one line is the first to begin `name=`. */
  lemma FirstToSpeak(lines: seq<string>, name: string, i: nat)
    requires i < |lines| && StartsWith(lines[i], name + "=") && Silent(lines[..i], name)
    ensures !Silent(lines, name)
    ensures forall j :: 0 <= j < |lines| && StartsWith(lines[j], name + "=") && Silent(lines[..j], name) ==> j == i
  {
    forall j | 0 <= j < |lines| && StartsWith(lines[j], name + "=") && Silent(lines[..j], name)
      ensures j == i
    {
      if j < i {
        SpeaksBy(lines, name, j, i);
      } else if i < j {
        SpeaksBy(lines, name, i, j);
      }
    }
  }

  lemma {:induction false} ValueInConcat(xs: seq<string>, ys: seq<string>, name: string)
    ensures Silent(xs, name) ==> ValueIn(xs + ys, name) == ValueIn(ys, name)
    ensures Silent(ys, name) ==> ValueIn(xs + ys, name) == ValueIn(xs, name)
    decreases |xs|
  {
    if xs == [] {
      assert xs + ys == ys;
      if Silent(ys, name) {
        NoneFound(ys, name);
      }
    } else {
      assert (xs + ys)[1..] == xs[1..] + ys;
      ValueInConcat(xs[1..], ys, name);
    }
  }

  lemma {:induction false} NoneFound(lines: seq<string>, name: string)
    requires Silent(lines, name)
    ensures ValueIn(lines, name) == ""
  {
    if lines != [] {
      NoneFound(lines[1..], name);
    }
  }

  lemma {:induction false} KeptIsUnnamed(lines: seq<string>, wanted: Pairs)
    ensures forall i :: 0 <= i < |Kept(lines, wanted)| ==> !Named(wanted, KeyOf(Kept(lines, wanted)[i]))
  {
    if lines != [] {
      KeptIsUnnamed(lines[1..], wanted);
    }
  }

  lemma {:induction false} KeptSnoc(lines: seq<string>, last: string, wanted: Pairs)
    ensures Kept(lines + [last], wanted) == Kept(lines, wanted) + if Named(wanted, KeyOf(last)) then [] else [last]
  {
    if lines == [] {
      assert [] + [last] == [last] && [last][1..] == [];
    } else {
      assert (lines + [last])[1..] == lines[1..] + [last] && (lines + [last])[0] == lines[0];
      KeptSnoc(lines[1..], last, wanted);
      var head, tail := if Named(wanted, KeyOf(lines[0])) then [] else [lines[0]],
        if Named(wanted, KeyOf(last)) then [] else [last];
      assert Kept(lines + [last], wanted) == head + (Kept(lines[1..], wanted) + tail);
      assert Kept(lines, wanted) == head + Kept(lines[1..], wanted);
    }
  }

  /** The lines at those positions. */
  ghost predicate StandAt(lines: seq<string>, at: seq<nat>, found: seq<string>) {
    |at| == |found| && forall t :: 0 <= t < |at| ==> at[t] < |lines| && found[t] == lines[at[t]]
  }

  /** Where the lines stand whose key is not written. */
  ghost function Unnamed(lines: seq<string>, wanted: Pairs, n: nat): seq<nat> {
    Picked(n, (b: nat) => b < |lines| && !Named(wanted, KeyOf(lines[b])))
  }

  lemma {:induction false} KeptStands(lines: seq<string>, wanted: Pairs, n: nat)
    requires n <= |lines|
    ensures StandAt(lines, Unnamed(lines, wanted, n), Kept(lines[..n], wanted))
  {
    if n > 0 {
      assert lines[..n] == lines[..n - 1] + [lines[n - 1]];
      KeptStands(lines, wanted, n - 1);
      KeptSnoc(lines[..n - 1], lines[n - 1], wanted);
    }
  }

  /** The old lines whose key is not written, comments and blank lines among them, in their
      old order, and then one line a name. The last one may lose trailing space. */
  ghost predicate LineByLine(was: seq<string>, lines: seq<string>, wanted: Pairs, at: seq<nat>) {
    && Increasing(at) && |lines| == |at| + |wanted|
    && (forall b: nat :: b in at <==> b < |was| && forall k :: 0 <= k < |wanted| ==> KeyOf(was[b]) != wanted[k].0)
    && (forall t :: 0 <= t < |at| ==> at[t] < |was| && lines[t] == was[at[t]])
    && (forall k :: 0 <= k < |wanted| - 1 ==> lines[|at| + k] == wanted[k].0 + "=" + wanted[k].1)
  }

  lemma KeptThenSettled(was: seq<string>, wanted: Pairs) returns (at: seq<nat>)
    requires wanted != []
    ensures LineByLine(was, Kept(was, wanted) + Settled(wanted), wanted, at)
  {
    at := Unnamed(was, wanted, |was|);
    assert was[..|was|] == was;
    KeptStands(was, wanted, |was|);
  }

  /** The file after a save, line by line. */
  lemma SavedLineByLine(text: Option<string>, wanted: Pairs) returns (at: seq<nat>)
    requires Savable(wanted)
    ensures LineByLine(SplitLines(text.GetOr("")), SplitLines(Saved(text, wanted)), wanted, at)
  {
    at := KeptThenSettled(SplitLines(text.GetOr("")), wanted);
    SavedLines(text, wanted);
  }

  lemma {:induction false} KeptReadsTheSame(lines: seq<string>, wanted: Pairs, name: string)
    requires !Named(wanted, KeyOf(name))
    ensures ValueIn(Kept(lines, wanted), name) == ValueIn(lines, name)
  {
    if lines != [] {
      KeptReadsTheSame(lines[1..], wanted, name);
      if StartsWith(lines[0], name + "=") {
        StartsWithItsKey(lines[0], name);
      }
      if !Named(wanted, KeyOf(lines[0])) {
        assert Kept(lines, wanted)[1..] == Kept(lines[1..], wanted);
      } else {
        assert Kept(lines, wanted) == Kept(lines[1..], wanted);
      }
    }
  }

  lemma SettledKey(wanted: Pairs, i: nat)
    requires Savable(wanted) && i < |wanted|
    ensures KeyOf(Settled(wanted)[i]) == wanted[i].0
  {
    KeyOfLine(wanted[i].0, Settled(wanted)[i][|wanted[i].0| + 1..]);
    assert Settled(wanted)[i] == wanted[i].0 + "=" + Settled(wanted)[i][|wanted[i].0| + 1..];
  }

  /** Every other name reads as it did before the save: every name whose key, the part
      before an equals sign, is not written. A blank customer id is such a name, so the
      old one stays. */
  lemma OthersUnchanged(text: Option<string>, wanted: Pairs, name: string)
    requires Savable(wanted) && !Named(wanted, KeyOf(name))
    ensures ValueIn(SplitLines(Saved(text, wanted)), name) == ValueIn(SplitLines(text.GetOr("")), name)
  {
    SavedLines(text, wanted);
    var lines := SplitLines(text.GetOr(""));
    forall i | 0 <= i < |wanted|
      ensures !StartsWith(Settled(wanted)[i], name + "=")
    {
      SettledKey(wanted, i);
      if StartsWith(Settled(wanted)[i], name + "=") {
        StartsWithItsKey(Settled(wanted)[i], name);
      }
    }
    ValueInConcat(Kept(lines, wanted), Settled(wanted), name);
    KeptReadsTheSame(lines, wanted, name);
  }

  /** No line before the one of a saved name is about it. */
  lemma SilentBefore(lines: seq<string>, wanted: Pairs, k: nat)
    requires Savable(wanted) && k < |wanted|
    ensures Silent(Kept(lines, wanted) + Settled(wanted)[..k], wanted[k].0)
  {
    var kept, settled := Kept(lines, wanted), Settled(wanted);
    var before := kept + settled[..k];
    KeptIsUnnamed(lines, wanted);
    forall i | 0 <= i < |before|
      ensures !StartsWith(before[i], wanted[k].0 + "=")
    {
      if i >= |kept| {
        assert before[i] == settled[i - |kept|];
        SettledKey(wanted, i - |kept|);
      }
      if StartsWith(before[i], wanted[k].0 + "=") {
        StartsWithItsKey(before[i], wanted[k].0);
      }
    }
  }

  lemma SettledValue(wanted: Pairs, k: nat)
    requires Savable(wanted) && k < |wanted|
    ensures ValueIn(Settled(wanted)[k..], wanted[k].0) == Strip(Strip(wanted[k].1, IsSpace), IsQuote)
  {
    var name, line := wanted[k].0, Settled(wanted)[k];
    assert Settled(wanted)[k..][0] == line && name + "=" <= line;
    AfterKeyOfLine(name, if k == |wanted| - 1 then RStrip(wanted[k].1, IsSpace) else wanted[k].1);
    RStripIsPrefix(wanted[k].1, IsSpace);
  }

  lemma ReadsBackAmong(lines: seq<string>, wanted: Pairs, k: nat)
    requires Savable(wanted) && k < |wanted|
    ensures ValueIn(Kept(lines, wanted) + Settled(wanted), wanted[k].0) == Strip(Strip(wanted[k].1, IsSpace), IsQuote)
  {
    var settled := Settled(wanted);
    var before := Kept(lines, wanted) + settled[..k];
    SilentBefore(lines, wanted, k);
    assert Kept(lines, wanted) + settled == before + settled[k..];
    ValueInConcat(before, settled[k..], wanted[k].0);
    SettledValue(wanted, k);
  }

  /** Each saved name reads back as its value without outer space and quotes. */
  lemma SavedReadsBack(text: Option<string>, wanted: Pairs, k: nat)
    requires Savable(wanted) && k < |wanted|
    ensures ValueIn(SplitLines(Saved(text, wanted)), wanted[k].0) == Strip(Strip(wanted[k].1, IsSpace), IsQuote)
  {
    SavedLines(text, wanted);
    ReadsBackAmong(SplitLines(text.GetOr("")), wanted, k);
  }

  // ----- which values survive ---------------------------------------------------------------

  lemma {:induction false} LStripExact(s: string, drop: char -> bool)
    ensures |LStrip(s, drop)| <= |s|
    ensures LStrip(s, drop) == s <==> s == [] || !drop(s[0])
    ensures |LStrip(s, drop)| == |s| <==> LStrip(s, drop) == s
    decreases |s|
  {
    if s != [] && drop(s[0]) {
      LStripExact(s[1..], drop);
    }
  }

  lemma StripExact(s: string, drop: char -> bool)
    ensures |Strip(s, drop)| <= |s|
    ensures Strip(s, drop) == s <==> s == [] || (!drop(s[0]) && !drop(s[|s| - 1]))
    ensures |Strip(s, drop)| == |s| ==> Strip(s, drop) == s
  {
    RStripIsPrefix(s, drop);
    LStripExact(RStrip(s, drop), drop);
    if s != [] && drop(s[|s| - 1]) {
      RStripIsPrefix(s[..|s| - 1], drop);
    }
  }

  predicate Outer(c: char) {
    IsSpace(c) || IsQuote(c)
  }

  /** A saved value reads back as itself exactly when neither end is space or a quote. */
  lemma ReadsBackExactly(text: Option<string>, wanted: Pairs, k: nat)
    requires Savable(wanted) && k < |wanted|
    ensures var v := wanted[k].1;
      ValueIn(SplitLines(Saved(text, wanted)), wanted[k].0) == v <==> v == "" || (!Outer(v[0]) && !Outer(v[|v| - 1]))
  {
    SavedReadsBack(text, wanted, k);
    var v := wanted[k].1;
    StripExact(v, IsSpace);
    StripExact(Strip(v, IsSpace), IsQuote);
    StripExact(v, IsQuote);
  }

  lemma {:induction false} KeptTwice(lines: seq<string>, wanted: Pairs)
    ensures Kept(Kept(lines, wanted), wanted) == Kept(lines, wanted)
  {
    if lines != [] {
      KeptTwice(lines[1..], wanted);
      if !Named(wanted, KeyOf(lines[0])) {
        assert Kept(lines, wanted)[1..] == Kept(lines[1..], wanted);
      } else {
        assert Kept(lines, wanted) == Kept(lines[1..], wanted);
      }
    }
  }

  lemma {:induction false} KeptConcat(xs: seq<string>, ys: seq<string>, wanted: Pairs)
    requires forall i :: 0 <= i < |ys| ==> Named(wanted, KeyOf(ys[i]))
    ensures Kept(xs + ys, wanted) == Kept(xs, wanted)
    decreases |xs| + |ys|
  {
    if xs == [] {
      assert xs + ys == ys;
      if ys != [] {
        KeptConcat([], ys[1..], wanted);
        assert [] + ys[1..] == ys[1..];
      }
    } else {
      assert (xs + ys)[1..] == xs[1..] + ys;
      KeptConcat(xs[1..], ys, wanted);
    }
  }

  /** Saving twice leaves the file as saving once. */
  lemma SavingTwice(text: Option<string>, wanted: Pairs)
    requires Savable(wanted)
    ensures Saved(Some(Saved(text, wanted)), wanted) == Saved(text, wanted)
  {
    SavedLines(text, wanted);
    var kept := Kept(SplitLines(text.GetOr("")), wanted);
    forall i | 0 <= i < |wanted|
      ensures Named(wanted, KeyOf(Settled(wanted)[i]))
    {
      SettledKey(wanted, i);
    }
    KeptConcat(kept, Settled(wanted), wanted);
    KeptTwice(SplitLines(text.GetOr("")), wanted);
  }

  // ----- the five names ------------------------------------------------------------------------

  lemma SavedIsRead(text: Option<string>, wanted: Pairs)
    requires Savable(wanted)
    ensures ReadsAsSaved(text, Some(Saved(text, wanted)), wanted)
  {
    forall k | 0 <= k < |wanted|
      ensures ValueIn(SplitLines(Saved(text, wanted)), wanted[k].0) == Strip(Strip(wanted[k].1, IsSpace), IsQuote)
    {
      SavedReadsBack(text, wanted, k);
    }
    forall name | !Named(wanted, KeyOf(name))
      ensures ValueIn(SplitLines(Saved(text, wanted)), name) == ValueIn(SplitLines(text.GetOr("")), name)
    {
      OthersUnchanged(text, wanted, name);
    }
    SavingTwice(text, wanted);
  }

  predicate UpperName(name: string) {
    forall i :: 0 <= i < |name| ==> 'A' <= name[i] <= 'Z' || name[i] == '_'
  }

  /** Names of upper-case letters and underscores are names. */
  lemma UpperIsNameLike(name: string)
    requires UpperName(name)
    ensures NameLike(name)
  {
  }

  lemma ThreeNames()
    ensures NameLike("GOOGLE_ADS_DEVELOPER_TOKEN") && NameLike("GOOGLE_ADS_CLIENT_ID")
      && NameLike("GOOGLE_ADS_CLIENT_SECRET")
  {
    UpperIsNameLike("GOOGLE_ADS_DEVELOPER_TOKEN");
    UpperIsNameLike("GOOGLE_ADS_CLIENT_ID");
    UpperIsNameLike("GOOGLE_ADS_CLIENT_SECRET");
  }

  lemma TwoMoreNames()
    ensures NameLike("GOOGLE_ADS_REFRESH_TOKEN") && NameLike("GOOGLE_ADS_CUSTOMER_ID")
  {
    UpperIsNameLike("GOOGLE_ADS_REFRESH_TOKEN");
    UpperIsNameLike("GOOGLE_ADS_CUSTOMER_ID");
  }

  /** The lengths are 26, 20, 24, 24 and 22; the two of length 24 part at the twelfth
      character. */
  lemma FiveNamesDiffer()
    ensures "GOOGLE_ADS_CLIENT_SECRET" != "GOOGLE_ADS_REFRESH_TOKEN"
  {
    assert "GOOGLE_ADS_CLIENT_SECRET"[11] == 'C' && "GOOGLE_ADS_REFRESH_TOKEN"[11] == 'R';
  }

  /** Whatever the five values are, as long as none holds a line break. */
  lemma WantedIsSavable(
    developerToken: string, clientId: string, clientSecret: string, refreshToken: string, customerId: string)
    requires OneLineEach([developerToken, clientId, clientSecret, refreshToken, customerId])
    ensures Savable(Wanted(developerToken, clientId, clientSecret, refreshToken, customerId))
    ensures customerId != "" <==>
      Named(Wanted(developerToken, clientId, clientSecret, refreshToken, customerId), "GOOGLE_ADS_CUSTOMER_ID")
  {
    var values := [developerToken, clientId, clientSecret, refreshToken, customerId];
    assert OneLine(values[0]) && OneLine(values[1]) && OneLine(values[2]) && OneLine(values[3]) && OneLine(values[4]);
    var wanted := Wanted(developerToken, clientId, clientSecret, refreshToken, customerId);
    ThreeNames();
    TwoMoreNames();
    FiveNamesDiffer();
    assert |wanted[0].0| == 26 && |wanted[1].0| == 20 && |wanted[2].0| == 24 && |wanted[3].0| == 24;
    if customerId != "" {
      assert wanted[4].0 == "GOOGLE_ADS_CUSTOMER_ID" && |wanted[4].0| == 22;
    }
  }

  /** The name is read as the value, without outer space and quotes. */
  predicate ReadsAs(text: Option<string>, name: string, value: string) {
    ValueIn(SplitLines(text.GetOr("")), name) == Strip(Strip(value, IsSpace), IsQuote)
  }

  predicate ReadsTheSame(before: Option<string>, after: Option<string>, name: string) {
    ValueIn(SplitLines(after.GetOr("")), name) == ValueIn(SplitLines(before.GetOr("")), name)
  }

  lemma EachReadsAs(before: Option<string>, after: Option<string>, wanted: Pairs, k: nat)
    requires ReadsAsSaved(before, after, wanted) && k < |wanted|
    ensures ReadsAs(after, wanted[k].0, wanted[k].1)
  {
  }

  lemma TokenAndIdRead(
    before: Option<string>, after: Option<string>, wanted: Pairs, developerToken: string, clientId: string)
    requires ReadsAsSaved(before, after, wanted) && |wanted| >= 4
    requires wanted[0] == ("GOOGLE_ADS_DEVELOPER_TOKEN", developerToken)
    requires wanted[1] == ("GOOGLE_ADS_CLIENT_ID", clientId)
    ensures ReadsAs(after, "GOOGLE_ADS_DEVELOPER_TOKEN", developerToken)
    ensures ReadsAs(after, "GOOGLE_ADS_CLIENT_ID", clientId)
  {
    EachReadsAs(before, after, wanted, 0);
    EachReadsAs(before, after, wanted, 1);
  }

  lemma SecretAndRefreshRead(
    before: Option<string>, after: Option<string>, wanted: Pairs, clientSecret: string, refreshToken: string)
    requires ReadsAsSaved(before, after, wanted) && |wanted| >= 4
    requires wanted[2] == ("GOOGLE_ADS_CLIENT_SECRET", clientSecret)
    requires wanted[3] == ("GOOGLE_ADS_REFRESH_TOKEN", refreshToken)
    ensures ReadsAs(after, "GOOGLE_ADS_CLIENT_SECRET", clientSecret)
    ensures ReadsAs(after, "GOOGLE_ADS_REFRESH_TOKEN", refreshToken)
  {
    EachReadsAs(before, after, wanted, 2);
    EachReadsAs(before, after, wanted, 3);
  }

  /** A customer id is read back; a blank one leaves the old one. */
  lemma CustomerRead(before: Option<string>, after: Option<string>, wanted: Pairs, customerId: string)
    requires ReadsAsSaved(before, after, wanted) && |wanted| >= 4
    requires customerId != "" <==> Named(wanted, "GOOGLE_ADS_CUSTOMER_ID")
    requires customerId != "" ==> |wanted| == 5 && wanted[4] == ("GOOGLE_ADS_CUSTOMER_ID", customerId)
    ensures customerId != "" ==> ReadsAs(after, "GOOGLE_ADS_CUSTOMER_ID", customerId)
    ensures customerId == "" ==> ReadsTheSame(before, after, "GOOGLE_ADS_CUSTOMER_ID")
  {
    if customerId != "" {
      EachReadsAs(before, after, wanted, 4);
    } else {
      TwoMoreNames();
      KeyOfLine("GOOGLE_ADS_CUSTOMER_ID", "");
    }
  }

  /** Each name is read as the value given for it; a blank customer id leaves the old one. */
  predicate FiveReadBack(
    before: Option<string>, after: Option<string>, developerToken: string, clientId: string, clientSecret: string,
    refreshToken: string, customerId: string)
  {
    && ReadsAs(after, "GOOGLE_ADS_DEVELOPER_TOKEN", developerToken)
    && ReadsAs(after, "GOOGLE_ADS_CLIENT_ID", clientId)
    && ReadsAs(after, "GOOGLE_ADS_CLIENT_SECRET", clientSecret)
    && ReadsAs(after, "GOOGLE_ADS_REFRESH_TOKEN", refreshToken)
    && (customerId != "" ==> ReadsAs(after, "GOOGLE_ADS_CUSTOMER_ID", customerId))
    && (customerId == "" ==> ReadsTheSame(before, after, "GOOGLE_ADS_CUSTOMER_ID"))
  }

  lemma FiveRead(
    before: Option<string>, after: Option<string>, wanted: Pairs, developerToken: string, clientId: string,
    clientSecret: string, refreshToken: string, customerId: string)
    requires wanted == Wanted(developerToken, clientId, clientSecret, refreshToken, customerId)
    requires customerId != "" <==> Named(wanted, "GOOGLE_ADS_CUSTOMER_ID")
    requires ReadsAsSaved(before, after, wanted)
    ensures FiveReadBack(before, after, developerToken, clientId, clientSecret, refreshToken, customerId)
  {
    TokenAndIdRead(before, after, wanted, developerToken, clientId);
    SecretAndRefreshRead(before, after, wanted, clientSecret, refreshToken);
    CustomerRead(before, after, wanted, customerId);
  }

  // ----- the file -----------------------------------------------------------------------------

  /** The file on disk. */
  class EnvFile {
    var text: Option<string>

    constructor (text: Option<string>)
      ensures this.text == text
    {
      this.text := text;
    }

    /** Values of one line are read back, whatever else the file held is not disturbed,
        and saving them again changes nothing. */
    method SaveEnv(
      developerToken: string, clientId: string, clientSecret: string, refreshToken: string, customerId: string)
      modifies this
      ensures text == Some(Saved(old(text), Wanted(developerToken, clientId, clientSecret, refreshToken, customerId)))
      ensures OneLineEach([developerToken, clientId, clientSecret, refreshToken, customerId]) ==>
        ReadsAsSaved(old(text), text, Wanted(developerToken, clientId, clientSecret, refreshToken, customerId))
      ensures OneLineEach([developerToken, clientId, clientSecret, refreshToken, customerId]) ==>
        FiveReadBack(old(text), text, developerToken, clientId, clientSecret, refreshToken, customerId)
    {
      var lines := SplitLines(text.GetOr(""));
      var wanted := [
        ("GOOGLE_ADS_DEVELOPER_TOKEN", developerToken),
        ("GOOGLE_ADS_CLIENT_ID", clientId),
        ("GOOGLE_ADS_CLIENT_SECRET", clientSecret),
        ("GOOGLE_ADS_REFRESH_TOKEN", refreshToken)];
      if customerId != "" {
        wanted := wanted + [("GOOGLE_ADS_CUSTOMER_ID", customerId)];
      }
      assert wanted == Wanted(developerToken, clientId, clientSecret, refreshToken, customerId);
      var kept := Kept(lines, wanted);
      var body := Join(kept + Written(wanted));
      text := Some(RStrip(body, IsSpace) + "\n");
      if OneLineEach([developerToken, clientId, clientSecret, refreshToken, customerId]) {
        WantedIsSavable(developerToken, clientId, clientSecret, refreshToken, customerId);
        SavedIsRead(old(text), wanted);
        FiveRead(old(text), text, wanted, developerToken, clientId, clientSecret, refreshToken, customerId);
      }
    }

    /** The environment first, then the first line that begins `name=`, then nothing. */
    method ReadEnv(environment: map<string, string>, name: string) returns (value: string)
      ensures value == EnvValue(environment, text, name)
      ensures name in environment && environment[name] != "" ==> value == environment[name]
      ensures name !in environment || environment[name] == "" ==>
        var lines := SplitLines(text.GetOr(""));
        && (Silent(lines, name) ==> value == "")
        && forall i :: 0 <= i < |lines| && StartsWith(lines[i], name + "=") && Silent(lines[..i], name) ==>
             value == Strip(Strip(AfterKey(lines[i]), IsSpace), IsQuote)
    {
      if name in environment && environment[name] != "" {
        return environment[name];
      }
      if text.None? {
        return "";
      }
      var lines := SplitLines(text.value);
      for i := 0 to |lines|
        invariant ValueIn(lines, name) == ValueIn(lines[i..], name)
        invariant Silent(lines[..i], name)
      {
        assert lines[i..][0] == lines[i] && lines[i..][1..] == lines[i + 1..];
        if StartsWith(lines[i], name + "=") {
          FirstToSpeak(lines, name, i);
          return Strip(Strip(AfterKey(lines[i]), IsSpace), IsQuote);
        }
      }
      assert lines[..|lines|] == lines;
      return "";
    }
  }
}
