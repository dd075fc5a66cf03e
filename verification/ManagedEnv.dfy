/** Merging managed keys into an existing `.env`: the first assignment of each managed key is replaced, missing keys
    are appended, everything else stays. */
module ManagedEnv {
  import opened Options

  datatype Setting = Setting(key: string, value: string)

  const BANNER := "# ---- [managed] added by `helix appliance up` ----"

  // Characters, as Python's regular expressions and `splitlines` class them.

  predicate IsSpace(c: char) {
    || '\t' <= c <= '\r' || '\U{1c}' <= c <= ' ' || c == '\U{85}' || c == '\U{a0}' || c == '\U{1680}'
    || '\U{2000}' <= c <= '\U{200a}' || c == '\U{2028}' || c == '\U{2029}' || c == '\U{202f}' || c == '\U{205f}'
    || c == '\U{3000}'
  }

  predicate IsBreak(c: char) {
    || '\n' <= c <= '\r' || '\U{1c}' <= c <= '\U{1e}' || c == '\U{85}' || c == '\U{2028}' || c == '\U{2029}'
  }

  predicate IsKeyStart(c: char) { 'A' <= c <= 'Z' || 'a' <= c <= 'z' || c == '_' }
  predicate IsKeyChar(c: char) { IsKeyStart(c) || '0' <= c <= '9' }

  function SkipSpace(s: string): string {
    if s != "" && IsSpace(s[0]) then SkipSpace(s[1..]) else s
  }

  /** The longest run of key characters. */
  function TakeKey(s: string): (k: string)
    ensures |k| <= |s| && k == s[..|k|]
  {
    if s != "" && IsKeyChar(s[0]) then [s[0]] + TakeKey(s[1..]) else ""
  }

  /** The key a line assigns: optional space, an identifier, optional space, an equals sign. */
  function KeyOf(line: string): Option<string> {
    var s := SkipSpace(line);
    if s == "" || !IsKeyStart(s[0]) then None
    else
      var key := TakeKey(s);
      var after := SkipSpace(s[|key|..]);
      if after != "" && after[0] == '=' then Some(key) else None
  }

  /** `splitlines`: CR LF is one break, and a final break ends the last line. */
  function SplitLines(text: string): seq<string> {
    if text == "" then [] else SplitFrom("", text)
  }

  function SplitFrom(line: string, text: string): seq<string>
    decreases |text|
  {
    if text == "" then (if line == "" then [] else [line])
    else if !IsBreak(text[0]) then SplitFrom(line + [text[0]], text[1..])
    else
      var rest := if text[0] == '\r' && |text| > 1 && text[1] == '\n' then text[2..] else text[1..];
      [line] + SplitFrom("", rest)
  }

  function Join(lines: seq<string>): string {
    if lines == [] then "" else if |lines| == 1 then lines[0] else lines[0] + "\n" + Join(lines[1..])
  }

  // The remaining dictionary.

  function Keys(settings: seq<Setting>): set<string> {
    set i | 0 <= i < |settings| :: settings[i].key
  }

  function ValueOf(settings: seq<Setting>, key: string): string
    requires key in Keys(settings)
  {
    if settings[0].key == key then settings[0].value
    else
      assert key in Keys(settings[1..]) by {
        var i :| 0 <= i < |settings| && settings[i].key == key;
        assert settings[1..][i - 1] == settings[i];
      }
      ValueOf(settings[1..], key)
  }

  function Pop(settings: seq<Setting>, key: string): seq<Setting> {
    if settings == [] then []
    else if settings[0].key == key then settings[1..]
    else [settings[0]] + Pop(settings[1..], key)
  }

  predicate Distinct(settings: seq<Setting>) {
    forall i, j :: 0 <= i < j < |settings| ==> settings[i].key != settings[j].key
  }

  function Assignment(key: string, value: string): string {
    key + "=" + value
  }

  function Assignments(settings: seq<Setting>): (lines: seq<string>)
    ensures |lines| == |settings|
  {
    if settings == [] then [] else [Assignment(settings[0].key, settings[0].value)] + Assignments(settings[1..])
  }

  // The merge.

  /** The lines rewritten, and the settings no line assigned. */
  function Rewrite(lines: seq<string>, remaining: seq<Setting>): (seq<string>, seq<Setting>) {
    if lines == [] then ([], remaining)
    else
      var last := |lines| - 1;
      var (out, left) := Rewrite(lines[..last], remaining);
      var key := KeyOf(lines[last]);
      if key.Some? && key.value in Keys(left)
      then (out + [Assignment(key.value, ValueOf(left, key.value))], Pop(left, key.value))
      else (out + [lines[last]], left)
  }

  /** The blank line set before the banner, unless the last line is blank. */
  function Gap(out: seq<string>): (gap: seq<string>)
    ensures gap == [] || gap == [""]
  {
    if out != [] && SkipSpace(out[|out| - 1]) != "" then [""] else []
  }

  function Appended(out: seq<string>, left: seq<Setting>): seq<string> {
    if left == [] then [] else Gap(out) + [BANNER] + Assignments(left)
  }

  function MergeLines(lines: seq<string>, managed: seq<Setting>): seq<string> {
    var (out, left) := Rewrite(lines, managed);
    out + Appended(out, left)
  }

  function Merge(existing: string, managed: seq<Setting>): string {
    Join(MergeLines(SplitLines(existing), managed)) + "\n"
  }

  lemma {:induction false} RewriteNext(lines: seq<string>, i: nat, managed: seq<Setting>)
    requires i < |lines|
    ensures var (out, left) := Rewrite(lines[..i], managed);
            var key := KeyOf(lines[i]);
            Rewrite(lines[..i + 1], managed)
            == if key.Some? && key.value in Keys(left)
               then (out + [Assignment(key.value, ValueOf(left, key.value))], Pop(left, key.value))
               else (out + [lines[i]], left)
  {
    assert lines[..i + 1][..i] == lines[..i];
  }

  method MergeManaged(existing: string, managed: seq<Setting>) returns (text: string)
    ensures text == Merge(existing, managed)
  {
    hide *;
    var remaining := managed;
    var out: seq<string> := [];
    var lines := SplitLines(existing);
    NothingRewritten(lines, managed);
    for i := 0 to |lines|
      invariant (out, remaining) == Rewrite(lines[..i], managed)
    {
      var key := KeyOf(lines[i]);
      RewriteNext(lines, i, managed);
      if key.Some? && key.value in Keys(remaining) {
        out := out + [Assignment(key.value, ValueOf(remaining, key.value))];
        remaining := Pop(remaining, key.value);
      } else {
        out := out + [lines[i]];
      }
    }
    assert lines[..|lines|] == lines;
    AppendedParts(out, remaining);
    MergeIs(existing, managed);
    if remaining != [] {
      if out != [] && SkipSpace(out[|out| - 1]) != "" {
        out := out + [""];
      }
      out := out + [BANNER];
      out := out + Assignments(remaining);
    }
    text := Join(out) + "\n";
  }

  lemma {:induction false} NothingRewritten(lines: seq<string>, managed: seq<Setting>)
    ensures Rewrite(lines[..0], managed) == ([], managed)
  {}

  lemma {:induction false} AppendedParts(out: seq<string>, left: seq<Setting>)
    ensures out + Appended(out, left)
         == if left == [] then out
            else (if out != [] && SkipSpace(out[|out| - 1]) != "" then out + [""] else out) + [BANNER] + Assignments(left)
  {
    hide SkipSpace, Assignments;
    assert out + [] == out;
    assert out + (Gap(out) + [BANNER] + Assignments(left)) == out + Gap(out) + [BANNER] + Assignments(left);
  }

  lemma {:induction false} MergeIs(existing: string, managed: seq<Setting>)
    ensures var (out, left) := Rewrite(SplitLines(existing), managed);
            Merge(existing, managed) == Join(out + Appended(out, left)) + "\n"
  {}

  // Keys of rendered lines.

  predicate IsIdentifier(k: string) {
    k != "" && IsKeyStart(k[0]) && forall i :: 0 <= i < |k| ==> IsKeyChar(k[i])
  }

  predicate NoBreak(s: string) {
    forall i :: 0 <= i < |s| ==> !IsBreak(s[i])
  }

  predicate WellManaged(managed: seq<Setting>) {
    && Distinct(managed)
    && forall i :: 0 <= i < |managed| ==> IsIdentifier(managed[i].key) && NoBreak(managed[i].value)
  }

  lemma {:induction false} TakeWholeKey(k: string, rest: string)
    requires forall i :: 0 <= i < |k| ==> IsKeyChar(k[i])
    requires rest != "" && !IsKeyChar(rest[0])
    ensures TakeKey(k + rest) == k
  {
    if k == "" {
      assert k + rest == rest;
    } else {
      TakeWholeKey(k[1..], rest);
      assert (k + rest)[1..] == k[1..] + rest;
    }
  }

  lemma KeyOfAssignment(key: string, value: string)
    requires IsIdentifier(key)
    ensures KeyOf(Assignment(key, value)) == Some(key)
  {
    var line := key + ("=" + value);
    assert Assignment(key, value) == line;
    assert IsKeyChar(key[0]) && line[0] == key[0];
    TakeWholeKey(key, "=" + value);
    assert line[|key|..] == "=" + value;
  }

  lemma KeyOfFixedLines()
    ensures KeyOf("").None? && KeyOf(BANNER).None?
  {
    assert "# ---- [managed] added by"[0] == '#';
  }

  // What rewriting does, line by line.

  /** Line i is the first to assign its key, and the key is managed. */
  predicate Replaced(lines: seq<string>, managed: seq<Setting>, i: nat)
    requires i < |lines|
  {
    KeyOf(lines[i]).Some? && KeyOf(lines[i]).value in Keys(managed) && !AssignedIn(lines[..i], KeyOf(lines[i]).value)
  }

  predicate AssignedIn(lines: seq<string>, key: string) {
    exists j :: 0 <= j < |lines| && KeyOf(lines[j]) == Some(key)
  }

  function RewrittenLine(lines: seq<string>, managed: seq<Setting>, i: nat): string
    requires i < |lines|
  {
    if Replaced(lines, managed, i)
    then Assignment(KeyOf(lines[i]).value, ValueOf(managed, KeyOf(lines[i]).value))
    else lines[i]
  }

  lemma {:induction false} KeysCons(settings: seq<Setting>)
    requires settings != []
    ensures Keys(settings) == {settings[0].key} + Keys(settings[1..])
  {
    forall k | k in Keys(settings) ensures k in {settings[0].key} + Keys(settings[1..]) {
      var i :| 0 <= i < |settings| && settings[i].key == k;
      if i > 0 {
        assert settings[1..][i - 1].key == k;
      }
    }
    forall k | k in Keys(settings[1..]) ensures k in Keys(settings) {
      var i :| 0 <= i < |settings[1..]| && settings[1..][i].key == k;
      assert settings[i + 1].key == k;
    }
  }

  lemma {:induction false} PopKeys(settings: seq<Setting>, key: string)
    requires Distinct(settings)
    ensures Distinct(Pop(settings, key)) && Keys(Pop(settings, key)) == Keys(settings) - {key}
    ensures forall k :: k in Keys(settings) && k != key ==> ValueOf(Pop(settings, key), k) == ValueOf(settings, k)
  {
    if settings != [] {
      var head, tail := settings[0], settings[1..];
      KeysCons(settings);
      assert Distinct(tail) && head.key !in Keys(tail) by {
        assert forall i :: 0 <= i < |tail| ==> tail[i] == settings[i + 1];
      }
      if head.key != key {
        PopKeys(tail, key);
        var popped := [head] + Pop(tail, key);
        assert popped[1..] == Pop(tail, key);
        KeysCons(popped);
        forall i, j | 0 <= i < j < |popped| ensures popped[i].key != popped[j].key {
          if i == 0 {
            assert popped[j] == Pop(tail, key)[j - 1];
            assert Pop(tail, key)[j - 1].key in Keys(Pop(tail, key));
          }
        }
      }
    }
  }

  predicate LinesRewritten(lines: seq<string>, managed: seq<Setting>, out: seq<string>) {
    |out| == |lines| && forall i :: 0 <= i < |lines| ==> out[i] == RewrittenLine(lines, managed, i)
  }

  predicate Leaves(lines: seq<string>, managed: seq<Setting>, left: seq<Setting>) {
    && Distinct(left)
    && Keys(left) <= Keys(managed)
    && (forall s :: s in managed ==> (s.key in Keys(left) <==> !AssignedIn(lines, s.key)))
    && (forall k :: k in Keys(left) ==> !AssignedIn(lines, k) && ValueOf(left, k) == ValueOf(managed, k))
  }

  /** What is known of rewritten lines and the settings left over. */
  predicate Rewritten(lines: seq<string>, managed: seq<Setting>, out: seq<string>, left: seq<Setting>) {
    LinesRewritten(lines, managed, out) && Leaves(lines, managed, left)
  }

  lemma KeyHeld(managed: seq<Setting>, k: string)
    ensures k in Keys(managed) <==> exists s :: s in managed && s.key == k
  {
    if k in Keys(managed) {
      var i :| 0 <= i < |managed| && managed[i].key == k;
      assert managed[i] in managed;
    }
  }

  lemma {:induction false} RewrittenInit(init: seq<string>, line: string, managed: seq<Setting>, i: nat)
    requires i < |init|
    ensures RewrittenLine(init + [line], managed, i) == RewrittenLine(init, managed, i)
  {
    var lines := init + [line];
    assert lines[..i] == init[..i] && lines[i] == init[i];
    hide KeyOf, AssignedIn, Keys;
  }

  lemma {:induction false} RewrittenLast(init: seq<string>, line: string, managed: seq<Setting>)
    ensures var key := KeyOf(line);
            RewrittenLine(init + [line], managed, |init|)
            == if key.Some? && key.value in Keys(managed) && !AssignedIn(init, key.value)
               then Assignment(key.value, ValueOf(managed, key.value)) else line
  {
    var lines := init + [line];
    assert lines[..|init|] == init && lines[|init|] == line;
    hide KeyOf, AssignedIn, Keys, ValueOf, Assignment;
  }

  lemma {:induction false} LinesSnoc(init: seq<string>, line: string, managed: seq<Setting>, out: seq<string>)
    requires LinesRewritten(init, managed, out)
    ensures LinesRewritten(init + [line], managed, out + [RewrittenLine(init + [line], managed, |init|)])
  {
    forall i | 0 <= i < |init| ensures RewrittenLine(init + [line], managed, i) == RewrittenLine(init, managed, i) {
      RewrittenInit(init, line, managed, i);
    }
    hide RewrittenLine;
  }

  lemma {:induction false} LeavesSnoc(init: seq<string>, line: string, managed: seq<Setting>, left: seq<Setting>)
    requires Leaves(init, managed, left)
    ensures Leaves(init + [line], managed, if KeyOf(line).Some? then Pop(left, KeyOf(line).value) else left)
  {
    forall k ensures AssignedIn(init + [line], k) <==> AssignedIn(init, k) || KeyOf(line) == Some(k) {
      AssignedSnoc(init, line, k);
    }
    if KeyOf(line).Some? {
      PopKeys(left, KeyOf(line).value);
    }
    hide KeyOf, Keys, Distinct, AssignedIn, Pop, ValueOf;
  }

  lemma {:induction false} RewriteSnoc(init: seq<string>, line: string, managed: seq<Setting>, out: seq<string>,
                                       left: seq<Setting>)
    requires Distinct(managed) && Rewritten(init, managed, out, left)
    ensures var key := KeyOf(line);
            if key.Some? && key.value in Keys(left)
            then Rewritten(init + [line], managed, out + [Assignment(key.value, ValueOf(left, key.value))],
                   Pop(left, key.value))
            else Rewritten(init + [line], managed, out + [line], left)
  {
    LinesSnoc(init, line, managed, out);
    LeavesSnoc(init, line, managed, left);
    RewrittenLast(init, line, managed);
    if KeyOf(line).Some? {
      var key := KeyOf(line).value;
      KeyHeld(managed, key);
      if key !in Keys(left) {
        PopAbsent(left, key);
      }
    }
    hide KeyOf, Keys, Distinct, AssignedIn, Pop, ValueOf, Assignment, RewrittenLine, LinesRewritten;
  }

  /** Rewriting changes exactly the first assignment of each managed key, and leaves over exactly the settings no line
      assigns, with their values. */
  lemma {:induction false} RewriteIs(lines: seq<string>, managed: seq<Setting>)
    requires Distinct(managed)
    ensures Rewritten(lines, managed, Rewrite(lines, managed).0, Rewrite(lines, managed).1)
    decreases |lines|
  {
    if lines == [] {
      forall s | s in managed ensures s.key in Keys(managed) { KeyHeld(managed, s.key); }
    } else {
      var n := |lines| - 1;
      RewriteIs(lines[..n], managed);
      var (out, left) := Rewrite(lines[..n], managed);
      RewriteSnoc(lines[..n], lines[n], managed, out, left);
      assert lines == lines[..n] + [lines[n]];
      hide Rewritten, KeyOf, Keys, Pop, ValueOf, Assignment;
    }
  }

  lemma AssignedSnoc(lines: seq<string>, line: string, key: string)
    ensures AssignedIn(lines + [line], key) <==> AssignedIn(lines, key) || KeyOf(line) == Some(key)
  {
    var more := lines + [line];
    assert more[|lines|] == line;
    if AssignedIn(lines, key) {
      var j :| 0 <= j < |lines| && KeyOf(lines[j]) == Some(key);
      assert more[j] == lines[j];
    }
  }

  // What the merge guarantees.

  lemma {:induction false} AssignmentsAre(settings: seq<Setting>)
    ensures |Assignments(settings)| == |settings|
    ensures forall i :: 0 <= i < |settings| ==> Assignments(settings)[i] == Assignment(settings[i].key, settings[i].value)
  {
    if settings != [] {
      AssignmentsAre(settings[1..]);
      assert forall i :: 1 <= i < |settings| ==> settings[i] == settings[1..][i - 1];
    }
  }

  lemma {:induction false} ValueIs(settings: seq<Setting>, i: nat)
    requires Distinct(settings) && i < |settings|
    ensures settings[i].key in Keys(settings) && ValueOf(settings, settings[i].key) == settings[i].value
  {
    assert settings[i].key in Keys(settings);
    if i > 0 {
      assert settings[0].key != settings[i].key;
      assert settings[1..][i - 1] == settings[i];
      assert Distinct(settings[1..]) by {
        assert forall k :: 0 <= k < |settings[1..]| ==> settings[1..][k] == settings[k + 1];
      }
      ValueIs(settings[1..], i - 1);
    }
  }

  /** The first line of the result that assigns a managed key carries its managed value. */
  predicate Assigns(out: seq<string>, i: nat, key: string, value: string) {
    i < |out| && out[i] == key + "=" + value && !AssignedIn(out[..i], key)
  }

  /** The settings no line assigns, in order. */
  function Unassigned(lines: seq<string>, managed: seq<Setting>): seq<Setting> {
    if managed == [] then []
    else (if AssignedIn(lines, managed[0].key) then [] else [managed[0]]) + Unassigned(lines, managed[1..])
  }

  lemma {:induction false} PopAbsent(settings: seq<Setting>, key: string)
    requires key !in Keys(settings)
    ensures Pop(settings, key) == settings
  {
    if settings != [] {
      KeysCons(settings);
      PopAbsent(settings[1..], key);
      assert settings[0].key in Keys(settings);
    }
  }

  lemma {:induction false} UnassignedKeys(lines: seq<string>, managed: seq<Setting>)
    ensures Keys(Unassigned(lines, managed)) <= Keys(managed)
  {
    if managed != [] {
      UnassignedKeys(lines, managed[1..]);
      KeysCons(managed);
      var rest := Unassigned(lines, managed[1..]);
      assert ([managed[0]] + rest)[1..] == rest;
      KeysCons([managed[0]] + rest);
      assert [] + rest == rest;
      hide AssignedIn, Keys;
    }
  }

  lemma {:induction false} UnassignedSnoc(lines: seq<string>, line: string, managed: seq<Setting>, key: string)
    requires Distinct(managed) && KeyOf(line) == Some(key)
    ensures Unassigned(lines + [line], managed) == Pop(Unassigned(lines, managed), key)
  {
    if managed != [] {
      var head, tail := managed[0], managed[1..];
      var rest := Unassigned(lines, tail);
      assert Distinct(tail) && head.key !in Keys(tail) by {
        assert forall i :: 0 <= i < |tail| ==> tail[i] == managed[i + 1];
      }
      UnassignedSnoc(lines, line, tail, key);
      AssignedSnoc(lines, line, head.key);
      hide AssignedIn, KeyOf, Keys, Distinct;
      if head.key == key {
        UnassignedKeys(lines, tail);
        PopAbsent(rest, key);
      }
      assert ([head] + rest)[1..] == rest && [] + rest == rest;
    }
  }

  lemma {:induction false} SameUnassigned(lines: seq<string>, line: string, managed: seq<Setting>)
    requires KeyOf(line).None?
    ensures Unassigned(lines + [line], managed) == Unassigned(lines, managed)
  {
    if managed != [] {
      AssignedSnoc(lines, line, managed[0].key);
      SameUnassigned(lines, line, managed[1..]);
      hide AssignedIn, KeyOf;
    }
  }

  lemma {:induction false} NoneAssigned(managed: seq<Setting>)
    ensures Unassigned([], managed) == managed
  {
    if managed != [] {
      NoneAssigned(managed[1..]);
    }
  }

  /** What rewriting leaves over is what no line assigns, in the order given. */
  lemma {:induction false} LeftOver(lines: seq<string>, managed: seq<Setting>)
    requires Distinct(managed)
    ensures Rewrite(lines, managed).1 == Unassigned(lines, managed)
    decreases |lines|
  {
    if lines == [] {
      NoneAssigned(managed);
    } else {
      var n := |lines| - 1;
      var line := lines[n];
      LeftOver(lines[..n], managed);
      assert lines == lines[..n] + [line];
      var left := Rewrite(lines[..n], managed).1;
      if KeyOf(line).Some? {
        UnassignedSnoc(lines[..n], line, managed, KeyOf(line).value);
        if KeyOf(line).value !in Keys(left) {
          PopAbsent(left, KeyOf(line).value);
        }
      } else {
        SameUnassigned(lines[..n], line, managed);
      }
      hide KeyOf, Keys, Pop, Unassigned, Distinct, Assignment, ValueOf;
    }
  }

  /** Every line other than the first assignment of a managed key survives verbatim, in place; the settings no line
      assigns follow in their order behind a banner, and nothing follows if there are none. */
  lemma {:induction false} OthersSurvive(lines: seq<string>, managed: seq<Setting>)
    requires Distinct(managed)
    ensures var out := MergeLines(lines, managed);
            && |out| >= |lines|
            && (forall i :: 0 <= i < |lines| ==> out[i] == RewrittenLine(lines, managed, i))
            && out[|lines|..] == Appended(out[..|lines|], Unassigned(lines, managed))
  {
    RewriteIs(lines, managed);
    LeftOver(lines, managed);
    var (out, left) := Rewrite(lines, managed);
    var all := MergeLines(lines, managed);
    hide KeyOf, RewrittenLine, Rewrite, Unassigned;
    assert all == out + Appended(out, left);
    assert all[..|lines|] == out;
  }

  lemma {:induction false} NoneUnassigned(lines: seq<string>, managed: seq<Setting>)
    requires forall s :: s in managed ==> AssignedIn(lines, s.key)
    ensures Unassigned(lines, managed) == []
  {
    if managed != [] {
      assert managed[0] in managed;
      NoneUnassigned(lines, managed[1..]);
    }
  }

  lemma RewrittenKey(lines: seq<string>, managed: seq<Setting>, i: nat)
    requires i < |lines| && forall s :: s in managed ==> IsIdentifier(s.key)
    ensures KeyOf(RewrittenLine(lines, managed, i)) == KeyOf(lines[i])
  {
    if Replaced(lines, managed, i) {
      var key := KeyOf(lines[i]).value;
      KeyHeld(managed, key);
      KeyOfAssignment(key, ValueOf(managed, key));
    }
  }

  /** Rewriting moves no assignment. */
  lemma SameAssignments(lines: seq<string>, managed: seq<Setting>, out: seq<string>, key: string)
    requires forall s :: s in managed ==> IsIdentifier(s.key)
    requires |out| == |lines| && forall i :: 0 <= i < |lines| ==> out[i] == RewrittenLine(lines, managed, i)
    ensures AssignedIn(out, key) <==> AssignedIn(lines, key)
    ensures forall n :: 0 <= n <= |lines| ==> (AssignedIn(out[..n], key) <==> AssignedIn(lines[..n], key))
  {
    forall i | 0 <= i < |lines| ensures KeyOf(out[i]) == KeyOf(lines[i]) { RewrittenKey(lines, managed, i); }
    hide KeyOf, RewrittenLine;
    forall n | 0 <= n <= |lines| ensures AssignedIn(out[..n], key) <==> AssignedIn(lines[..n], key) {
      if AssignedIn(lines[..n], key) {
        var j :| 0 <= j < n && KeyOf(lines[..n][j]) == Some(key);
        assert out[..n][j] == out[j] && lines[..n][j] == lines[j];
      }
      if AssignedIn(out[..n], key) {
        var j :| 0 <= j < n && KeyOf(out[..n][j]) == Some(key);
        assert out[..n][j] == out[j] && lines[..n][j] == lines[j];
      }
    }
    assert out[..|out|] == out && lines[..|lines|] == lines;
  }

  lemma {:induction false} FirstAssignment(lines: seq<string>, key: string) returns (i: nat)
    requires AssignedIn(lines, key)
    ensures i < |lines| && KeyOf(lines[i]) == Some(key) && !AssignedIn(lines[..i], key)
    decreases |lines|
  {
    var j :| 0 <= j < |lines| && KeyOf(lines[j]) == Some(key);
    if AssignedIn(lines[..j], key) {
      i := FirstAssignment(lines[..j], key);
      assert lines[..j][..i] == lines[..i];
    } else {
      i := j;
    }
  }

  lemma AssignedAt(lines: seq<string>, n: nat, j: nat, key: string)
    requires j < n <= |lines| && KeyOf(lines[j]) == Some(key)
    ensures AssignedIn(lines[..n], key)
  {
    assert lines[..n][j] == lines[j];
  }

  lemma FirstIsUnique(lines: seq<string>, i: nat, j: nat, key: string)
    requires i < |lines| && KeyOf(lines[i]) == Some(key) && !AssignedIn(lines[..i], key)
    requires j < |lines| && KeyOf(lines[j]) == Some(key) && !AssignedIn(lines[..j], key)
    ensures i == j
  {
    if j < i {
      AssignedAt(lines, i, j, key);
    } else if i < j {
      AssignedAt(lines, j, i, key);
    }
  }

  lemma AssignedAppend(a: seq<string>, b: seq<string>, key: string)
    ensures AssignedIn(a + b, key) <==> AssignedIn(a, key) || AssignedIn(b, key)
  {
    hide KeyOf;
    if AssignedIn(a, key) {
      var j :| 0 <= j < |a| && KeyOf(a[j]) == Some(key);
      assert (a + b)[j] == a[j];
    }
    if AssignedIn(b, key) {
      var j :| 0 <= j < |b| && KeyOf(b[j]) == Some(key);
      assert (a + b)[|a| + j] == b[j];
    }
  }

  lemma FixedNotAssigned(gap: seq<string>, key: string)
    requires gap == [] || gap == [""]
    ensures !AssignedIn(gap, key) && !AssignedIn([BANNER], key)
  {
    KeyOfFixedLines();
  }

  lemma {:induction false} OthersNotAssigned(left: seq<Setting>, k: nat)
    requires k < |left| && Distinct(left)
    requires forall i :: 0 <= i < |left| ==> IsIdentifier(left[i].key)
    ensures !AssignedIn(Assignments(left)[..k], left[k].key)
  {
    AssignmentsAre(left);
    forall m | 0 <= m < k ensures KeyOf(Assignments(left)[..k][m]) != Some(left[k].key) {
      KeyOfAssignment(left[m].key, left[m].value);
    }
    hide KeyOf;
  }

  lemma FrontNotAssigned(out: seq<string>, gap: seq<string>, key: string)
    requires !AssignedIn(out, key) && (gap == [] || gap == [""])
    ensures !AssignedIn(out + gap + [BANNER], key)
  {
    FixedNotAssigned(gap, key);
    AssignedAppend(out, gap, key);
    AssignedAppend(out + gap, [BANNER], key);
    hide *;
  }

  lemma PrefixOfJoined(front: seq<string>, lines: seq<string>, k: nat)
    requires k < |lines|
    ensures (front + lines)[..|front| + k] == front + lines[..k] && (front + lines)[|front| + k] == lines[k]
  {}

  /** A first assignment stays one behind lines that do not assign its key. */
  lemma AssignsBehind(front: seq<string>, lines: seq<string>, k: nat, key: string, value: string)
    requires !AssignedIn(front, key) && Assigns(lines, k, key, value)
    ensures Assigns(front + lines, |front| + k, key, value)
  {
    hide AssignedIn, Assignment;
    PrefixOfJoined(front, lines, k);
    AssignedAppend(front, lines[..k], key);
  }

  /** Each appended setting is the first to assign its key among those appended. */
  lemma {:induction false} AppendedAssigns(left: seq<Setting>, k: nat)
    requires k < |left| && Distinct(left)
    requires forall i :: 0 <= i < |left| ==> IsIdentifier(left[i].key)
    ensures Assigns(Assignments(left), k, left[k].key, left[k].value)
  {
    AssignmentsAre(left);
    OthersNotAssigned(left, k);
    hide AssignedIn, Distinct, Assignments, IsIdentifier;
  }

  lemma FirstRewritten(lines: seq<string>, managed: seq<Setting>, i: nat, s: Setting)
    requires Distinct(managed) && s in managed
    requires i < |lines| && KeyOf(lines[i]) == Some(s.key) && !AssignedIn(lines[..i], s.key)
    ensures RewrittenLine(lines, managed, i) == Assignment(s.key, s.value)
  {
    hide KeyOf, AssignedIn, Assignment;
    var n :| 0 <= n < |managed| && managed[n] == s;
    ValueIs(managed, n);
  }

  lemma PrefixAssignments(all: seq<string>, lines: seq<string>, managed: seq<Setting>, n: nat, key: string)
    requires forall s :: s in managed ==> IsIdentifier(s.key)
    requires |all| >= |lines| && forall i :: 0 <= i < |lines| ==> all[i] == RewrittenLine(lines, managed, i)
    requires n <= |lines|
    ensures AssignedIn(all[..n], key) <==> AssignedIn(lines[..n], key)
  {
    hide AssignedIn, RewrittenLine, IsIdentifier;
    SameAssignments(lines, managed, all[..|lines|], key);
    assert all[..|lines|][..n] == all[..n];
  }

  lemma ReplacedWins(lines: seq<string>, managed: seq<Setting>, s: Setting) returns (i: nat)
    requires WellManaged(managed) && s in managed && AssignedIn(lines, s.key)
    ensures Assigns(MergeLines(lines, managed), i, s.key, s.value)
  {
    hide AssignedIn, RewrittenLine, IsIdentifier, Distinct, MergeLines, KeyOf, NoBreak;
    OthersSurvive(lines, managed);
    i := FirstAssignment(lines, s.key);
    FirstRewritten(lines, managed, i, s);
    PrefixAssignments(MergeLines(lines, managed), lines, managed, i, s.key);
  }

  /** A setting no line assigns is left over, with its value. */
  lemma LeftHolds(lines: seq<string>, managed: seq<Setting>, s: Setting) returns (k: nat)
    requires WellManaged(managed) && s in managed && !AssignedIn(lines, s.key)
    ensures var left := Rewrite(lines, managed).1;
            k < |left| && left[k] == s && Distinct(left) && forall m :: 0 <= m < |left| ==> IsIdentifier(left[m].key)
  {
    RewriteIs(lines, managed);
    var left := Rewrite(lines, managed).1;
    hide KeyOf, Rewrite, AssignedIn, IsIdentifier, NoBreak, RewrittenLine;
    assert s.key in Keys(left);
    k :| 0 <= k < |left| && left[k].key == s.key;
    var n :| 0 <= n < |managed| && managed[n] == s;
    ValueIs(managed, n);
    ValueIs(left, k);
    forall m | 0 <= m < |left| ensures IsIdentifier(left[m].key) {
      assert left[m].key in Keys(left);
      KeyHeld(managed, left[m].key);
    }
  }

  lemma {:induction false} NothingAssigned(lines: seq<string>, managed: seq<Setting>, key: string)
    requires WellManaged(managed) && !AssignedIn(lines, key)
    ensures !AssignedIn(Rewrite(lines, managed).0, key)
  {
    RewriteIs(lines, managed);
    SameAssignments(lines, managed, Rewrite(lines, managed).0, key);
    hide KeyOf, Rewrite, AssignedIn, IsIdentifier, NoBreak, RewrittenLine;
  }

  lemma AppendedWins(lines: seq<string>, managed: seq<Setting>, s: Setting) returns (i: nat)
    requires WellManaged(managed) && s in managed && !AssignedIn(lines, s.key)
    ensures Assigns(MergeLines(lines, managed), i, s.key, s.value)
  {
    hide *;
    var (out, left) := Rewrite(lines, managed);
    var gap := Gap(out);
    var k := LeftHolds(lines, managed, s);
    NothingAssigned(lines, managed, s.key);
    AppendedAssigns(left, k);
    FrontNotAssigned(out, gap, s.key);
    AssignsBehind(out + gap + [BANNER], Assignments(left), k, s.key, s.value);
    MergedWithTail(lines, managed);
    i := |out + gap + [BANNER]| + k;
  }

  lemma {:induction false} MergedWithTail(lines: seq<string>, managed: seq<Setting>)
    requires Rewrite(lines, managed).1 != []
    ensures var (out, left) := Rewrite(lines, managed);
            MergeLines(lines, managed) == out + Gap(out) + [BANNER] + Assignments(left)
  {
    hide Rewrite, Gap, Assignments;
  }

  /** After the merge the first assignment of each managed key carries its managed value. */
  lemma ManagedWins(lines: seq<string>, managed: seq<Setting>, s: Setting) returns (i: nat)
    requires WellManaged(managed) && s in managed
    ensures Assigns(MergeLines(lines, managed), i, s.key, s.value)
  {
    if AssignedIn(lines, s.key) {
      i := ReplacedWins(lines, managed, s);
    } else {
      i := AppendedWins(lines, managed, s);
    }
  }

  lemma MergedAssigns(lines: seq<string>, managed: seq<Setting>, s: Setting)
    requires WellManaged(managed) && s in managed
    ensures AssignedIn(MergeLines(lines, managed), s.key)
  {
    var i := ManagedWins(lines, managed, s);
    assert IsIdentifier(s.key);
    KeyOfAssignment(s.key, s.value);
    hide MergeLines, KeyOf;
  }

  /** What would be replaced in a merged file already carries its managed value. */
  lemma NothingToReplace(lines: seq<string>, managed: seq<Setting>, i: nat)
    requires WellManaged(managed) && i < |MergeLines(lines, managed)|
    ensures var once := MergeLines(lines, managed); RewrittenLine(once, managed, i) == once[i]
  {
    hide MergeLines, KeyOf, AssignedIn, NoBreak, IsIdentifier;
    var once := MergeLines(lines, managed);
    if Replaced(once, managed, i) {
      var key := KeyOf(once[i]).value;
      var n :| 0 <= n < |managed| && managed[n].key == key;
      ValueIs(managed, n);
      var j := ManagedWins(lines, managed, managed[n]);
      assert IsIdentifier(key);
      KeyOfAssignment(key, managed[n].value);
      FirstIsUnique(once, i, j, key);
    }
  }

  /** Merging lines twice is merging them once. */
  lemma MergeLinesTwice(lines: seq<string>, managed: seq<Setting>)
    requires WellManaged(managed)
    ensures MergeLines(MergeLines(lines, managed), managed) == MergeLines(lines, managed)
  {
    hide MergeLines, RewrittenLine, AssignedIn, Unassigned, Distinct, IsIdentifier, NoBreak;
    var once := MergeLines(lines, managed);
    forall s | s in managed ensures AssignedIn(once, s.key) { MergedAssigns(lines, managed, s); }
    forall i | 0 <= i < |once| ensures RewrittenLine(once, managed, i) == once[i] { NothingToReplace(lines, managed, i); }
    OthersSurvive(once, managed);
    NoneUnassigned(once, managed);
    var twice := MergeLines(once, managed);
    assert twice[..|once|] == once && twice == twice[..|once|] + twice[|once|..];
  }

  // Text and lines.

  lemma {:induction false} SplitBreaksNone(line: string, text: string)
    requires NoBreak(line)
    ensures forall i :: 0 <= i < |SplitFrom(line, text)| ==> NoBreak(SplitFrom(line, text)[i])
    decreases |text|
  {
    if text != "" {
      if !IsBreak(text[0]) {
        SplitBreaksNone(line + [text[0]], text[1..]);
      } else {
        var rest := if text[0] == '\r' && |text| > 1 && text[1] == '\n' then text[2..] else text[1..];
        SplitBreaksNone("", rest);
      }
    }
  }

  lemma {:induction false} SplitOneLine(prefix: string, line: string, rest: string)
    requires NoBreak(line)
    ensures SplitFrom(prefix, line + "\n" + rest) == [prefix + line] + SplitFrom("", rest)
    decreases |line|
  {
    var text := line + "\n" + rest;
    if line == "" {
      assert text[0] == '\n' && text[1..] == rest && prefix + line == prefix;
    } else {
      assert text[0] == line[0] && text[1..] == line[1..] + "\n" + rest;
      SplitOneLine(prefix + [line[0]], line[1..], rest);
      assert prefix + [line[0]] + line[1..] == prefix + line;
    }
  }

  /** Lines without breaks, joined and ended, split back into themselves. */
  lemma {:induction false} SplitJoin(lines: seq<string>)
    requires lines != [] && forall i :: 0 <= i < |lines| ==> NoBreak(lines[i])
    ensures SplitFrom("", Join(lines) + "\n") == lines
    decreases |lines|
  {
    if |lines| == 1 {
      SplitOneLine("", lines[0], "");
      assert lines[0] + "\n" + "" == Join(lines) + "\n";
      assert "" + lines[0] == lines[0] && [lines[0]] == lines;
    } else {
      var rest := Join(lines[1..]) + "\n";
      SplitJoin(lines[1..]);
      SplitOneLine("", lines[0], rest);
      assert lines[0] + "\n" + rest == Join(lines) + "\n";
      assert "" + lines[0] == lines[0] && lines == [lines[0]] + lines[1..];
    }
  }

  lemma BannerHasNoBreak()
    ensures NoBreak(BANNER)
  {
    assert NoBreak("# ---- [managed] added by");
  }

  lemma AssignmentHasNoBreak(key: string, value: string)
    requires IsIdentifier(key) && NoBreak(value)
    ensures NoBreak(Assignment(key, value))
  {
    forall i | 0 <= i < |key| ensures !IsBreak(key[i]) { assert IsKeyChar(key[i]); }
  }

  lemma {:induction false} ManagedHasNoBreak(managed: seq<Setting>, key: string)
    requires WellManaged(managed) && key in Keys(managed)
    ensures NoBreak(Assignment(key, ValueOf(managed, key)))
  {
    var m :| 0 <= m < |managed| && managed[m].key == key;
    ValueIs(managed, m);
    AssignmentHasNoBreak(key, managed[m].value);
  }

  lemma {:induction false} AppendedHasNoBreak(out: seq<string>, left: seq<Setting>, n: nat)
    requires WellManaged(left) && n < |Appended(out, left)|
    ensures NoBreak(Appended(out, left)[n])
  {
    var gap := Gap(out);
    AssignmentsAre(left);
    BannerHasNoBreak();
    hide NoBreak, Assignments, Gap, Distinct, IsIdentifier, Assignment;
    assert Appended(out, left) == gap + [BANNER] + Assignments(left);
    if n > |gap| {
      var k := n - (|gap| + 1);
      assert Appended(out, left)[n] == Assignments(left)[k];
      AssignmentHasNoBreak(left[k].key, left[k].value);
    } else if n < |gap| {
      assert Appended(out, left)[n] == "";
      EmptyHasNoBreak();
    }
  }

  lemma EmptyHasNoBreak()
    ensures NoBreak("")
  {}

  lemma {:induction false} LeftIsManaged(lines: seq<string>, managed: seq<Setting>)
    requires WellManaged(managed)
    ensures WellManaged(Rewrite(lines, managed).1)
  {
    RewriteIs(lines, managed);
    var left := Rewrite(lines, managed).1;
    hide Rewrite, KeyOf, AssignedIn, RewrittenLine, IsIdentifier, NoBreak;
    forall k | 0 <= k < |left| ensures IsIdentifier(left[k].key) && NoBreak(left[k].value) {
      assert left[k].key in Keys(left);
      ValueIs(left, k);
      var m :| 0 <= m < |managed| && managed[m].key == left[k].key;
      ValueIs(managed, m);
    }
  }

  lemma {:induction false} MergedHasNoBreak(lines: seq<string>, managed: seq<Setting>, n: nat)
    requires WellManaged(managed) && (forall i :: 0 <= i < |lines| ==> NoBreak(lines[i]))
    requires n < |MergeLines(lines, managed)|
    ensures NoBreak(MergeLines(lines, managed)[n])
  {
    RewriteIs(lines, managed);
    LeftIsManaged(lines, managed);
    var (out, left) := Rewrite(lines, managed);
    hide Rewrite, KeyOf, AssignedIn, IsIdentifier, NoBreak, Appended, Keys, Distinct, ValueOf, Assignment;
    if n < |out| {
      if Replaced(lines, managed, n) {
        ManagedHasNoBreak(managed, KeyOf(lines[n]).value);
      }
    } else {
      AppendedHasNoBreak(out, left, n - |out|);
    }
  }

  /** Merging a file twice is merging it once, byte for byte. */
  lemma MergeTwice(existing: string, managed: seq<Setting>)
    requires WellManaged(managed)
    ensures Merge(Merge(existing, managed), managed) == Merge(existing, managed)
  {
    var lines := SplitLines(existing);
    var once := MergeLines(lines, managed);
    if existing != "" {
      SplitBreaksNone("", existing);
    }
    forall n | 0 <= n < |once| ensures NoBreak(once[n]) { MergedHasNoBreak(lines, managed, n); }
    MergeLinesTwice(lines, managed);
    if once == [] {
      NothingMerged(managed, lines);
    } else {
      SplitJoin(once);
    }
  }

  lemma NothingMerged(managed: seq<Setting>, lines: seq<string>)
    requires MergeLines(lines, managed) == []
    ensures Merge("\n", managed) == "\n"
  {
    var (out, left) := Rewrite(lines, managed);
    assert left == [] && out == [];
  }

  // What the pattern, the line splitting and the gap are, without the functions that compute them.

  predicate AllSpace(s: string) {
    forall i :: 0 <= i < |s| ==> IsSpace(s[i])
  }

  /** A line assigns a key exactly if it is white space, the key, white space, an equals sign and anything. */
  predicate IsAssignmentOf(line: string, key: string, before: string, between: string, rest: string) {
    && line == before + key + between + "=" + rest
    && AllSpace(before) && AllSpace(between) && IsIdentifier(key)
  }

  lemma {:induction false} SkipSpaces(space: string, rest: string)
    requires AllSpace(space) && (rest == "" || !IsSpace(rest[0]))
    ensures SkipSpace(space + rest) == rest
  {
    hide IsSpace;
    if space == "" {
      assert space + rest == rest;
    } else {
      assert (space + rest)[0] == space[0] && (space + rest)[1..] == space[1..] + rest;
      SkipSpaces(space[1..], rest);
    }
  }

  lemma {:induction false} SpacesSkipped(s: string) returns (space: string)
    ensures AllSpace(space) && s == space + SkipSpace(s)
    ensures SkipSpace(s) == "" || !IsSpace(SkipSpace(s)[0])
  {
    hide IsSpace;
    if s != "" && IsSpace(s[0]) {
      var later := SpacesSkipped(s[1..]);
      space := [s[0]] + later;
      assert s == [s[0]] + s[1..];
    } else {
      space := "";
    }
  }

  lemma {:induction false} KeyTaken(s: string)
    ensures forall i :: 0 <= i < |TakeKey(s)| ==> IsKeyChar(TakeKey(s)[i])
  {
    if s != "" && IsKeyChar(s[0]) {
      KeyTaken(s[1..]);
    }
  }

  lemma NotSpace(c: char)
    requires IsKeyChar(c) || c == '='
    ensures !IsSpace(c)
  {}

  lemma NotKey(c: char)
    requires IsSpace(c) || c == '='
    ensures !IsKeyChar(c)
  {}

  /** Every such line is recognised, with its key. */
  lemma {:induction false} AssignmentsRecognised(line: string, key: string, before: string, between: string, rest: string)
    requires IsAssignmentOf(line, key, before, between, rest)
    ensures KeyOf(line) == Some(key)
  {
    var after := between + ("=" + rest);
    var named := key + after;
    assert line == before + named;
    assert IsKeyChar(key[0]) && named[0] == key[0];
    NotSpace(key[0]);
    NotSpace('=');
    NotKey(after[0]) by { assert between != "" ==> after[0] == between[0] && IsSpace(between[0]); }
    assert forall i :: 0 <= i < |key| ==> IsKeyChar(key[i]);
    hide IsSpace, IsKeyStart, IsKeyChar;
    SkipSpaces(before, named);
    TakeWholeKey(key, after);
    assert named[|key|..] == after;
    SkipSpaces(between, "=" + rest);
  }

  /** And no other is. */
  lemma {:induction false} RecognisedAssigns(line: string) returns (before: string, between: string, rest: string)
    requires KeyOf(line).Some?
    ensures IsAssignmentOf(line, KeyOf(line).value, before, between, rest)
  {
    before := SpacesSkipped(line);
    var s := SkipSpace(line);
    var key := TakeKey(s);
    KeyTaken(s);
    between := SpacesSkipped(s[|key|..]);
    rest := SkipSpace(s[|key|..])[1..];
    assert IsIdentifier(key) by { assert key[0] == s[0]; }
    assert SkipSpace(s[|key|..]) == "=" + rest;
    hide *;
    Composed(line, before, s, key, between, rest);
  }

  lemma Composed(line: string, before: string, s: string, key: string, between: string, rest: string)
    requires line == before + s && |key| <= |s| && key == s[..|key|] && s[|key|..] == between + ("=" + rest)
    ensures line == before + key + between + "=" + rest
  {
    assert s == key + (between + ("=" + rest));
  }

  /** The line boundaries of Python's `splitlines`, CR LF aside. */
  lemma BreaksAre(c: char)
    ensures IsBreak(c) <==> c in {'\n', '\r', '\U{0b}', '\U{0c}', '\U{1c}', '\U{1d}', '\U{1e}', '\U{85}', '\U{2028}', '\U{2029}'}
  {}

  /** A line ends at its first boundary, CR LF counting as one; what follows is split by itself. */
  lemma {:induction false} SplitAtBreak(prefix: string, line: string, boundary: string, rest: string)
    requires NoBreak(line)
    requires boundary == "\r\n" || (|boundary| == 1 && IsBreak(boundary[0]))
    requires boundary == "\r" ==> rest == "" || rest[0] != '\n'
    ensures SplitFrom(prefix, line + boundary + rest) == [prefix + line] + SplitFrom("", rest)
    decreases |line|
  {
    var text := line + boundary + rest;
    if line == "" {
      assert text == boundary + rest && prefix + line == prefix;
      assert text[0] == boundary[0];
      if boundary == "\r\n" {
        assert text[2..] == rest;
      } else {
        assert text[1..] == rest;
        assert rest != "" ==> text[1] == rest[0];
      }
      hide IsBreak;
    } else {
      assert text[0] == line[0] && text[1..] == line[1..] + boundary + rest;
      SplitAtBreak(prefix + [line[0]], line[1..], boundary, rest);
      assert prefix + [line[0]] + line[1..] == prefix + line;
    }
  }

  /** A last line without a boundary counts unless it is empty. */
  lemma {:induction false} SplitLast(prefix: string, line: string)
    requires NoBreak(line)
    ensures SplitFrom(prefix, line) == if prefix + line == "" then [] else [prefix + line]
    decreases |line|
  {
    if line == "" {
      assert prefix + line == prefix;
    } else {
      SplitLast(prefix + [line[0]], line[1..]);
      assert prefix + [line[0]] + line[1..] == prefix + line;
    }
  }

  /** A blank line is set before the banner exactly if there is a last line and it is not all white space. */
  lemma {:induction false} GapIs(out: seq<string>)
    ensures Gap(out) == if out != [] && !AllSpace(out[|out| - 1]) then [""] else []
  {
    if out != [] {
      var last := out[|out| - 1];
      var space := SpacesSkipped(last);
      if SkipSpace(last) == "" {
        assert last == space;
      } else {
        assert !IsSpace(last[|space|]);
      }
    }
  }
}
