/** The secrets file: parsing KEY=VALUE lines and editing one key in place, while every other line stays
    as it is. */
module EnvFile {
  import opened Options
  import opened Texts
  import Lines

  datatype Binding = Binding(key: string, value: string)

  /** One line as the parser reads it. */
  function ParseLine(raw: string): Option<Binding> {
    var line := Trim(raw);
    if line == "" || line[0] == '#' then None
    else
      var eq := Lines.IndexOf(line, '=');
      if eq.None? then None
      else
        var key := Trim(line[..eq.value]);
        if key == "" then None else Some(Binding(key, Trim(line[eq.value + 1..])))
  }

  function Applied(m: map<string, string>, raw: string): map<string, string> {
    var b := ParseLine(raw);
    if b.None? then m else m[b.value.key := b.value.value]
  }

  function ParseLines(m: map<string, string>, lines: seq<string>): map<string, string>
    decreases |lines|
  {
    if lines == [] then m else ParseLines(Applied(m, lines[0]), lines[1..])
  }

  method ParseEnvFile(text: string) returns (parsed: map<string, string>)
    ensures parsed == Parse(text)
  {
    parsed := map[];
    var lines := Lines.Split(text, '\n');
    for i := 0 to |lines|
      invariant ParseLines(parsed, lines[i..]) == Parse(text)
    {
      assert lines[i..][1..] == lines[i + 1..];
      parsed := Applied(parsed, lines[i]);
    }
  }

  function Parse(text: string): map<string, string> { ParseLines(map[], Lines.Split(text, '\n')) }

  // ----- editing

  /** The key a line sets, as the editor sees it. */
  function LineKey(raw: string): Option<string> {
    var line := Trim(raw);
    var eq := Lines.IndexOf(line, '=');
    if (line == "" || line[0] != '#') && eq.Some? && eq.value > 0 then Some(Trim(line[..eq.value])) else None
  }

  function TextLines(text: string): seq<string> {
    var lines := if text == "" then [] else Lines.Split(text, '\n');
    if lines != [] && lines[|lines| - 1] == "" then lines[..|lines| - 1] else lines
  }

  function Assignment(name: string, value: string): string { name + "=" + value }

  /** The new lines: the first line of the key is replaced, others of it are dropped, and a key not found
      is added at the end. */
  function Edited(lines: seq<string>, name: string, value: Option<string>, replaced: bool): seq<string> {
    if lines == [] then if value.Some? && !replaced then [Assignment(name, value.value)] else []
    else if LineKey(lines[0]) == Some(name) then
      if value.Some? && !replaced then [Assignment(name, value.value)] + Edited(lines[1..], name, value, true)
      else Edited(lines[1..], name, value, replaced)
    else [lines[0]] + Edited(lines[1..], name, value, replaced)
  }

  function TextOf(lines: seq<string>): string {
    if lines == [] then "" else Lines.Join(lines, '\n') + "\n"
  }

  function Upserted(text: string, name: string, value: Option<string>): string {
    TextOf(Edited(TextLines(text), name, value, false))
  }

  method UpsertEnvText(text: string, name: string, value: Option<string>) returns (result: string)
    ensures result == Upserted(text, name, value)
  {
    hide LineKey, Assignment, TextOf, TextLines;
    var lines := TextLines(text);
    var out: seq<string> := [];
    var replaced := false;
    for i := 0 to |lines|
      invariant out + Edited(lines[i..], name, value, replaced) == Edited(lines, name, value, false)
    {
      assert lines[i..][1..] == lines[i + 1..];
      if LineKey(lines[i]) == Some(name) {
        if value.Some? && !replaced {
          Regroup(out, Assignment(name, value.value), Edited(lines[i + 1..], name, value, true));
          out := out + [Assignment(name, value.value)];
          replaced := true;
        }
      } else {
        Regroup(out, lines[i], Edited(lines[i + 1..], name, value, replaced));
        out := out + [lines[i]];
      }
    }
    assert lines[|lines|..] == [];
    if value.Some? && !replaced {
      out := out + [Assignment(name, value.value)];
    } else {
      assert out + [] == out;
    }
    result := TextOf(out);
  }

  lemma Regroup(out: seq<string>, line: string, rest: seq<string>)
    ensures out + ([line] + rest) == out + [line] + rest
  {
  }

  // ----- trimming

  /** A trimmed text begins and ends with something else than white space. */
  lemma TrimIsTight(s: string)
    ensures Trim(s) != "" ==> !IsSpace(Trim(s)[0]) && !IsSpace(Trim(s)[|Trim(s)| - 1])
    ensures Trim(s) == "" <==> Blank(s)
  {
    hide IsSpace, Trim;
    var before, after := TrimCuts(s);
    assert Trim(s) != "" ==> s[|before|] == Trim(s)[0];
  }

  lemma TightIsTrimmed(s: string)
    requires s == "" || (!IsSpace(s[0]) && !IsSpace(s[|s| - 1]))
    ensures Trim(s) == s
  {
  }

  // ----- editor and parser see the same keys

  /** The editor takes a line for the key's exactly when the parser does. */
  lemma SameKeys(raw: string)
    ensures LineKey(raw) == if ParseLine(raw).Some? then Some(ParseLine(raw).value.key) else None
  {
    hide IsSpace, TrimStart, TrimEnd, Trim;
    var line := Trim(raw);
    TrimIsTight(raw);
    var eq := Lines.IndexOf(line, '=');
    if eq.Some? {
      TrimIsTight(line[..eq.value]);
      if eq.value > 0 {
        assert line[..eq.value][0] == line[0];
      } else {
        assert line[..0] == "";
      }
    }
  }

  /** A name the file can hold. */
  ghost predicate ValidName(name: string) {
    name != "" && Trim(name) == name && name[0] != '#' && '=' !in name && '\n' !in name
  }

  ghost predicate ValidValue(value: string) { Trim(value) == value && '\n' !in value }

  /** The line the editor writes parses as the binding it should. */
  lemma AssignmentParses(name: string, value: string)
    requires ValidName(name) && ValidValue(value)
    ensures ParseLine(Assignment(name, value)) == Some(Binding(name, value))
  {
    hide IsSpace, TrimStart, TrimEnd, Trim, Lines.IndexOf;
    var line := Assignment(name, value);
    TrimIsTight(name);
    TrimIsTight(value);
    assert line[0] == name[0];
    EqualsIsNotSpace();
    assert line[|line| - 1] == if value == "" then '=' else value[|value| - 1];
    TightIsTrimmed(line);
    Lines.IndexAfter(name, '=', value);
    assert line[..|name|] == name && line[|name| + 1..] == value;
  }

  lemma EqualsIsNotSpace()
    ensures !IsSpace('=')
  {
  }

  // ----- which lines the parser takes

  /** A name without an equals sign, not a comment, and a value, with white space around either. */
  ghost predicate IsAssignment(raw: string, name: string, value: string) {
    && name != "" && Tight(name) && name[0] != '#' && '=' !in name && Tight(value)
    && exists a, b, c, d :: Blank(a) && Blank(b) && Blank(c) && Blank(d) && raw == a + name + b + "=" + (c + value + d)
  }

  /** The parser takes a line for a binding exactly when it is such an assignment, and ignores every other
      line. */
  lemma ParsesExactlyWhen(raw: string, name: string, value: string)
    ensures ParseLine(raw) == Some(Binding(name, value)) <==> IsAssignment(raw, name, value)
  {
    hide IsAssignment;
    if IsAssignment(raw, name, value) {
      AssignmentIsParsed(raw, name, value);
    } else if ParseLine(raw) == Some(Binding(name, value)) {
      ParsedIsAssignment(raw);
    }
  }

  lemma AssignmentIsParsed(raw: string, name: string, value: string)
    requires IsAssignment(raw, name, value)
    ensures ParseLine(raw) == Some(Binding(name, value))
  {
    hide IsSpace, Trim, ParseLine, Blank, Tight;
    var a, b, c, d :| Blank(a) && Blank(b) && Blank(c) && Blank(d) && raw == a + name + b + "=" + (c + value + d);
    PiecesAreParsed(raw, a, name, b, c, value, d);
  }

  lemma PiecesAreParsed(raw: string, a: string, name: string, b: string, c: string, value: string, d: string)
    requires name != "" && Tight(name) && name[0] != '#' && '=' !in name && Tight(value)
    requires Blank(a) && Blank(b) && Blank(c) && Blank(d)
    requires raw == a + name + b + "=" + (c + value + d)
    ensures ParseLine(raw) == Some(Binding(name, value))
  {
    hide IsSpace, Trim, ParseLine;
    EmptyIsBlank(c, d);
    if value == "" {
      assert raw == a + name + (b + "=" + "" + "") + (c + d);
      TrimsTo(raw, a, name, b + "=" + "" + "", c + d);
      LineIsParsed(raw, name, b, "", "");
    } else {
      assert raw == a + name + (b + "=" + c + value) + d;
      TrimsTo(raw, a, name, b + "=" + c + value, d);
      LineIsParsed(raw, name, b, c, value);
    }
  }

  lemma EmptyIsBlank(c: string, d: string)
    requires Blank(c) && Blank(d)
    ensures Blank("") && Blank(c + d)
  {
    hide IsSpace;
  }

  lemma TrimsTo(raw: string, a: string, name: string, more: string, d: string)
    requires name != "" && Tight(name) && more != "" && (more[|more| - 1] == '=' || !IsSpace(more[|more| - 1]))
    requires Blank(a) && Blank(d) && raw == a + name + more + d
    ensures Trim(raw) == name + more
  {
    hide IsSpace, Trim;
    EqualsIsNotSpace();
    assert (name + more)[0] == name[0] && (name + more)[|name + more| - 1] == more[|more| - 1];
    assert raw == a + (name + more) + d;
    TrimPadded(a, name + more, d);
  }

  lemma LineIsParsed(raw: string, name: string, b: string, c: string, value: string)
    requires name != "" && Tight(name) && name[0] != '#' && '=' !in name && Tight(value) && Blank(b) && Blank(c)
    requires Trim(raw) == name + (b + "=" + c + value)
    ensures ParseLine(raw) == Some(Binding(name, value))
  {
    hide IsSpace, Trim, Lines.IndexOf, Tight;
    var line, left, right := Trim(raw), name + b, c + value;
    BlankHasNoEquals(b);
    assert line == left + ['='] + right;
    Lines.IndexAfter(left, '=', right);
    assert line[0] == name[0] && line[..|left|] == left && line[|left| + 1..] == right;
    assert left == "" + name + b && right == c + value + "";
    TrimPadded("", name, b);
    TrimPadded(c, value, "");
  }

  lemma BlankHasNoEquals(b: string)
    requires Blank(b)
    ensures '=' !in b
  {
    hide IsSpace;
    EqualsIsNotSpace();
  }

  lemma ParsedIsAssignment(raw: string)
    requires ParseLine(raw).Some?
    ensures IsAssignment(raw, ParseLine(raw).value.key, ParseLine(raw).value.value)
  {
    hide IsSpace, Trim, Lines.IndexOf;
    var line := Trim(raw);
    var eq := Lines.IndexOf(line, '=').value;
    var left, right := line[..eq], line[eq + 1..];
    var a, d := TrimCuts(raw);
    var a2, b := TrimCuts(left);
    var c, d2 := TrimCuts(right);
    LineIsCut(line, eq, left, right);
    NoBlankStart(line, a2, left);
    ParsedPieces(raw, a, d, Trim(left), b, c, Trim(right), d2);
  }

  lemma LineIsCut(line: string, eq: nat, left: string, right: string)
    requires eq < |line| && line[eq] == '=' && left == line[..eq] && right == line[eq + 1..]
    ensures line == left + "=" + right && left <= line
  {
  }

  lemma ParsedPieces(raw: string, a: string, d: string, name: string, b: string, c: string, value: string, d2: string)
    requires name != "" && Tight(name) && name[0] != '#' && '=' !in name && Tight(value)
    requires Blank(a) && Blank(b) && Blank(c) && Blank(d) && Blank(d2)
    requires raw == a + (name + b + "=" + (c + value + d2)) + d
    ensures IsAssignment(raw, name, value)
  {
    hide IsSpace;
    assert Blank(d2 + d);
    assert raw == a + name + b + "=" + (c + value + (d2 + d));
  }

  lemma NoBlankStart(line: string, before: string, left: string)
    requires Tight(line) && Blank(before) && before <= left && left <= line
    ensures before == ""
  {
    hide IsSpace;
  }

  // ----- the edit law on lines

  /** How the maps built so far by the old and the new lines relate. */
  ghost predicate Tracks(before: map<string, string>, after: map<string, string>, name: string, value: Option<string>, replaced: bool) {
    if value.Some? && replaced then after == before[name := value.value]
    else after - {name} == before - {name} && (value.None? ==> name !in after)
  }

  lemma {:induction false} EditLaw(before: map<string, string>, after: map<string, string>, lines: seq<string>, name: string, value: Option<string>, replaced: bool)
    requires ValidName(name) && (value.Some? ==> ValidValue(value.value))
    requires Tracks(before, after, name, value, replaced)
    ensures ParseLines(after, Edited(lines, name, value, replaced)) ==
            if value.Some? then ParseLines(before, lines)[name := value.value] else ParseLines(before, lines) - {name}
    decreases |lines|
  {
    hide ValidName, ValidValue, ParseLine, LineKey;
    if value.Some? {
      AssignmentParses(name, value.value);
    }
    var out := Edited(lines, name, value, replaced);
    if lines == [] {
      if value.Some? && !replaced {
        assert out[1..] == [];
        SetAfterAll(before, after, name, value.value);
      } else if value.None? {
        assert after == before - {name};
      }
    } else {
      SameKeys(lines[0]);
      var next := Applied(before, lines[0]);
      if LineKey(lines[0]) == Some(name) {
        if value.Some? && !replaced {
          assert out[1..] == Edited(lines[1..], name, value, true);
          SetAfterAll(before, after, name, value.value);
          EditLaw(next, after[name := value.value], lines[1..], name, value, true);
        } else {
          EditLaw(next, after, lines[1..], name, value, replaced);
        }
      } else {
        assert out[1..] == Edited(lines[1..], name, value, replaced);
        OtherLineTracks(before, after, lines[0], name, value, replaced);
        EditLaw(next, Applied(after, lines[0]), lines[1..], name, value, replaced);
      }
    }
  }

  lemma SetAfterAll(before: map<string, string>, after: map<string, string>, name: string, value: string)
    requires after - {name} == before - {name}
    ensures after[name := value] == before[name := value]
  {
    forall k | k != name
      ensures k in after <==> k in before
      ensures k in after ==> after[k] == before[k]
    {
      assert k in after - {name} <==> k in before - {name};
      assert k in after ==> (after - {name})[k] == (before - {name})[k];
    }
  }

  lemma OtherLineTracks(before: map<string, string>, after: map<string, string>, raw: string, name: string, value: Option<string>, replaced: bool)
    requires Tracks(before, after, name, value, replaced) && LineKey(raw) != Some(name)
    ensures Tracks(Applied(before, raw), Applied(after, raw), name, value, replaced)
  {
    hide ParseLine, LineKey;
    SameKeys(raw);
    var b := ParseLine(raw);
    if b.Some? && !(value.Some? && replaced) {
      assert after[b.value.key := b.value.value] - {name} == (after - {name})[b.value.key := b.value.value];
      assert before[b.value.key := b.value.value] - {name} == (before - {name})[b.value.key := b.value.value];
    }
  }

  // ----- the edit law on texts

  lemma {:induction false} EmptyLinesParse(m: map<string, string>, lines: seq<string>)
    ensures ParseLines(m, lines + [""]) == ParseLines(m, lines)
    decreases |lines|
  {
    if lines == [] {
      assert ([] + [""])[1..] == [];
      assert Applied(m, "") == m;
    } else {
      assert (lines + [""])[1..] == lines[1..] + [""];
      EmptyLinesParse(Applied(m, lines[0]), lines[1..]);
    }
  }

  /** The editor's lines carry what the parser reads. */
  lemma LinesCarryText(text: string)
    ensures ParseLines(map[], TextLines(text)) == Parse(text)
    ensures Lines.NoneHas(TextLines(text), '\n')
  {
    hide ParseLine;
    var split := Lines.Split(text, '\n');
    Lines.SplitHasNone(text, '\n');
    if text == "" {
      EmptyLinesParse(map[], []);
      assert split == [] + [""];
    } else if split[|split| - 1] == "" {
      EmptyLinesParse(map[], split[..|split| - 1]);
      assert split == split[..|split| - 1] + [""];
    }
  }

  lemma {:induction false} EditedHasNone(lines: seq<string>, name: string, value: Option<string>, replaced: bool)
    requires Lines.NoneHas(lines, '\n') && '\n' !in name && (value.Some? ==> '\n' !in value.value)
    ensures Lines.NoneHas(Edited(lines, name, value, replaced), '\n')
    decreases |lines|
  {
    hide LineKey;
    if lines != [] {
      var key := LineKey(lines[0]);
      EditedHasNone(lines[1..], name, value, true);
      EditedHasNone(lines[1..], name, value, replaced);
    }
  }

  /** Writing lines and reading them back. */
  lemma TextOfRoundTrip(lines: seq<string>)
    requires Lines.NoneHas(lines, '\n')
    ensures TextLines(TextOf(lines)) == lines
  {
    if lines != [] {
      Lines.SplitJoined(lines, '\n');
      assert (lines + [""])[..|lines|] == lines;
    }
  }

  /** The edit law: parsing the edited text gives the old map with the one key set, or without it. */
  lemma UpsertSetsOneKey(text: string, name: string, value: Option<string>)
    requires ValidName(name) && (value.Some? ==> ValidValue(value.value))
    ensures Parse(Upserted(text, name, value)) == if value.Some? then Parse(text)[name := value.value] else Parse(text) - {name}
  {
    hide Parse, ParseLines, Edited, TextLines, TextOf, Trim;
    var lines := TextLines(text);
    LinesCarryText(text);
    EditedHasNone(lines, name, value, false);
    TextOfRoundTrip(Edited(lines, name, value, false));
    LinesCarryText(Upserted(text, name, value));
    EditLaw(map[], map[], lines, name, value, false);
  }

  /** The lines that do not set the key. */
  function Others(lines: seq<string>, name: string): seq<string> {
    if lines == [] then []
    else (if LineKey(lines[0]) == Some(name) then [] else [lines[0]]) + Others(lines[1..], name)
  }

  lemma {:induction false} EditedKeepsOthers(lines: seq<string>, name: string, value: Option<string>, replaced: bool)
    requires ValidName(name) && (value.Some? ==> ValidValue(value.value))
    ensures Others(Edited(lines, name, value, replaced), name) == Others(lines, name)
    decreases |lines|
  {
    hide ValidName, ValidValue, LineKey;
    if value.Some? {
      AssignmentParses(name, value.value);
      SameKeys(Assignment(name, value.value));
    }
    var out := Edited(lines, name, value, replaced);
    if lines == [] {
      if out != [] {
        assert out[1..] == [];
      }
    } else if LineKey(lines[0]) == Some(name) {
      if value.Some? && !replaced {
        EditedKeepsOthers(lines[1..], name, value, true);
        assert out[1..] == Edited(lines[1..], name, value, true);
      } else {
        EditedKeepsOthers(lines[1..], name, value, replaced);
      }
    } else {
      EditedKeepsOthers(lines[1..], name, value, replaced);
      assert out[1..] == Edited(lines[1..], name, value, replaced);
    }
  }

  /** Every other line, comments and unparseable ones included, is kept as it is and in order. */
  lemma UpsertKeepsOtherLines(text: string, name: string, value: Option<string>)
    requires ValidName(name) && (value.Some? ==> ValidValue(value.value))
    ensures Others(TextLines(Upserted(text, name, value)), name) == Others(TextLines(text), name)
  {
    hide Edited, TextLines, TextOf, Trim, LineKey, Others;
    var lines := TextLines(text);
    LinesCarryText(text);
    EditedHasNone(lines, name, value, false);
    TextOfRoundTrip(Edited(lines, name, value, false));
    EditedKeepsOthers(lines, name, value, false);
  }

  lemma {:induction false} OthersIsAll(lines: seq<string>, name: string)
    requires forall i :: 0 <= i < |lines| ==> LineKey(lines[i]) != Some(name)
    ensures Others(lines, name) == lines
  {
    hide LineKey;
    if lines != [] {
      OthersIsAll(lines[1..], name);
    }
  }

  lemma {:induction false} ReplacedKeepsOthers(lines: seq<string>, name: string, value: Option<string>, replaced: bool)
    requires value.None? || replaced
    ensures Edited(lines, name, value, replaced) == Others(lines, name)
    decreases |lines|
  {
    hide LineKey;
    if lines != [] {
      ReplacedKeepsOthers(lines[1..], name, value, replaced);
    }
  }

  /** The lines after setting a key: the first line that set it is replaced where it stands and the others
      of the key are gone; a key that was not set comes last. */
  ghost predicate SetInPlace(before: seq<string>, after: seq<string>, name: string, value: string) {
    || (exists at :: FirstOfKey(before, name, at) && after == before[..at] + [name + "=" + value] + Others(before[at + 1..], name))
    || ((forall i :: 0 <= i < |before| ==> LineKey(before[i]) != Some(name)) && after == before + [name + "=" + value])
  }

  ghost predicate FirstOfKey(lines: seq<string>, name: string, at: int) {
    0 <= at < |lines| && LineKey(lines[at]) == Some(name) && forall i :: 0 <= i < at ==> LineKey(lines[i]) != Some(name)
  }

  lemma {:induction false} EditedInPlace(lines: seq<string>, name: string, value: string)
    ensures SetInPlace(lines, Edited(lines, name, Some(value), false), name, value)
    decreases |lines|
  {
    hide LineKey, Others;
    var after := Edited(lines, name, Some(value), false);
    if lines == [] {
    } else if LineKey(lines[0]) == Some(name) {
      ReplacedKeepsOthers(lines[1..], name, Some(value), true);
      assert FirstOfKey(lines, name, 0);
      assert after == lines[..0] + [name + "=" + value] + Others(lines[1..], name);
    } else {
      EditedInPlace(lines[1..], name, value);
      SetInPlaceAfter(lines, after, name, value);
    }
  }

  lemma SetInPlaceAfter(before: seq<string>, after: seq<string>, name: string, value: string)
    requires before != [] && after != [] && after[0] == before[0] && LineKey(before[0]) != Some(name)
    requires SetInPlace(before[1..], after[1..], name, value)
    ensures SetInPlace(before, after, name, value)
  {
    hide LineKey, Others;
    var tail := before[1..];
    assert after == [before[0]] + after[1..];
    if at :| FirstOfKey(tail, name, at) && after[1..] == tail[..at] + [name + "=" + value] + Others(tail[at + 1..], name) {
      assert tail[at + 1..] == before[at + 1 + 1..] && [before[0]] + tail[..at] == before[..at + 1];
      assert forall i :: 0 < i < |before| ==> before[i] == tail[i - 1];
      assert FirstOfKey(before, name, at + 1);
    } else {
      assert forall i :: 0 < i < |before| ==> before[i] == tail[i - 1];
      assert [before[0]] + (tail + [name + "=" + value]) == before + [name + "=" + value];
    }
  }

  /** Where an edit leaves its mark: setting a key works in place, removing it drops its lines. */
  lemma UpsertWorksInPlace(text: string, name: string, value: Option<string>)
    requires ValidName(name) && (value.Some? ==> ValidValue(value.value))
    ensures value.Some? ==> SetInPlace(TextLines(text), TextLines(Upserted(text, name, value)), name, value.value)
    ensures value.None? ==> TextLines(Upserted(text, name, value)) == Others(TextLines(text), name)
  {
    hide Edited, TextLines, TextOf, Trim, LineKey, Others, SetInPlace;
    var lines := TextLines(text);
    LinesCarryText(text);
    EditedHasNone(lines, name, value, false);
    TextOfRoundTrip(Edited(lines, name, value, false));
    if value.Some? {
      EditedInPlace(lines, name, value.value);
    } else {
      ReplacedKeepsOthers(lines, name, value, false);
    }
  }
}
