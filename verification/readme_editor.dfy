/** `update_readme`: the edit of the README's "Last updated:" line. The file
    system and the clock are parameters: the file's contents arrive as an
    `Option<string>` (`None` when the file does not exist), the timestamp as a
    string, and the text that would be written is the result. */
module ReadmeEditor {
  import opened Wrappers
  import opened PyStr

  /** The marker searched for, as a substring, in every line. */
  const Marker := "Last updated:"

  /** The heading of a README created from scratch. */
  const Title := "# Auto-Updated README"

  /** What the editor starts from when the README does not exist. */
  const DefaultContent := Title + "\n\n"

  /** The line that records the timestamp `ts`. */
  function MarkerLine(ts: string): string
  {
    Marker + " " + ts
  }

  /** The text the edit is applied to: the file's contents, or the default header. */
  function ContentOf(file: Option<string>): string
  {
    match file
    case Some(c) => c
    case None => DefaultContent
  }

  /** Line `i` is the first line holding the marker. */
  predicate IsFirstMarker(lines: seq<string>, i: nat)
  {
    i < |lines| && Contains(lines[i], Marker) &&
    forall j :: 0 <= j < i ==> !Contains(lines[j], Marker)
  }

  /** No line holds the marker. */
  predicate NoMarker(lines: seq<string>)
  {
    forall j :: 0 <= j < |lines| ==> !Contains(lines[j], Marker)
  }

  /** The index of the first line holding the marker, if any. */
  function FindMarker(lines: seq<string>): (r: Option<nat>)
    ensures r.Some? ==> IsFirstMarker(lines, r.value)
    ensures r.None? ==> NoMarker(lines)
  {
    if |lines| == 0 then None
    else if Contains(lines[0], Marker) then Some(0)
    else match FindMarker(lines[1..])
      case Some(i) => Some(i + 1)
      case None => None
  }

  /** The edit on the list of lines: the first marker line is overwritten by the
      new marker line, all other lines (later marker lines included) are kept;
      without a marker line one element, a newline followed by the marker line,
      is appended. */
  function EditLines(lines: seq<string>, ts: string): (r: seq<string>)
    ensures forall i: nat :: IsFirstMarker(lines, i) ==>
              |r| == |lines| && r[i] == MarkerLine(ts) &&
              forall j :: 0 <= j < |lines| && j != i ==> r[j] == lines[j]
    ensures NoMarker(lines) ==>
              |r| == |lines| + 1 && r[..|lines|] == lines && r[|lines|] == "\n" + MarkerLine(ts)
  {
    match FindMarker(lines)
    case Some(i) => lines[i := MarkerLine(ts)]
    case None => lines + ["\n" + MarkerLine(ts)]
  }

  /** `EditLines` with a known first marker line, as one list equation. */
  lemma FirstMarkerReplaced(lines: seq<string>, ts: string, i: nat)
    requires IsFirstMarker(lines, i)
    ensures EditLines(lines, ts) == lines[i := MarkerLine(ts)]
  {
  }

  /** `EditLines` without a marker line, as one list equation. */
  lemma NoMarkerAppends(lines: seq<string>, ts: string)
    requires NoMarker(lines)
    ensures EditLines(lines, ts) == lines + ["\n" + MarkerLine(ts)]
  {
  }

  /** The text written back: split, edit, join. */
  function EditText(content: string, ts: string): string
  {
    Join(EditLines(Split(content), ts))
  }

  /** `update_readme`: picks the contents to edit, scans the lines in order and
      overwrites the first one holding the marker, or appends the marker line
      when the scan finds none, and returns the text that is written. */
  method UpdateReadme(file: Option<string>, ts: string) returns (written: string)
    ensures written == EditText(ContentOf(file), ts)
  {
    var content := ContentOf(file);
    var lines := Split(content);
    ghost var original := lines;
    var updated := false;
    var i := 0;
    while i < |lines|
      invariant 0 <= i <= |lines|
      invariant lines == original
      invariant forall j :: 0 <= j < i ==> !Contains(lines[j], Marker)
    {
      if Contains(lines[i], Marker) {
        lines := lines[i := MarkerLine(ts)];
        updated := true;
        break;
      }
      i := i + 1;
    }
    if !updated {
      assert NoMarker(original);
      lines := lines + ["\n" + MarkerLine(ts)];
      assert lines == EditLines(original, ts) by { NoMarkerAppends(original, ts); }
    } else {
      assert lines == EditLines(original, ts) by { FirstMarkerReplaced(original, ts, i); }
    }
    written := Join(lines);
  }

  /** The marker line holds the marker and, for a newline-free timestamp, no newline. */
  lemma MarkerLineIsLine(ts: string)
    requires NoNewline(ts)
    ensures Contains(MarkerLine(ts), Marker)
    ensures NoNewline(MarkerLine(ts))
  {
    assert Marker <= MarkerLine(ts);
    assert forall k :: |Marker| + 1 <= k < |MarkerLine(ts)| ==> MarkerLine(ts)[k] == ts[k - |Marker| - 1];
  }

  /** With a marker line in the text, re-splitting the written text gives the
      original lines with only the first marker line replaced. */
  lemma EditTextReplaces(content: string, ts: string, i: nat)
    requires NoNewline(ts)
    requires IsFirstMarker(Split(content), i)
    ensures Split(EditText(content, ts)) == Split(content)[i := MarkerLine(ts)]
  {
    var lines := Split(content);
    MarkerLineIsLine(ts);
    SplitJoin(lines[i := MarkerLine(ts)]);
  }

  /** Without a marker line, the written text is the old text, a blank line and
      the marker line; re-split, that is two lines more than before. */
  lemma EditTextAppends(content: string, ts: string)
    requires NoMarker(Split(content))
    ensures EditText(content, ts) == content + "\n\n" + MarkerLine(ts)
    ensures NoNewline(ts) ==>
              Split(EditText(content, ts)) == Split(content) + ["", MarkerLine(ts)]
  {
    var lines, line := Split(content), MarkerLine(ts);
    calc {
      EditText(content, ts);
      Join(EditLines(lines, ts));
      { NoMarkerAppends(lines, ts); }
      Join(lines + ["\n" + line]);
      { JoinSnoc(lines, "\n" + line); }
      Join(lines) + "\n" + ("\n" + line);
      { JoinSplit(content); }
      content + "\n" + ("\n" + line);
      { assert content + "\n" + ("\n" + line) == content + "\n\n" + line; }
      content + "\n\n" + line;
    }
    if NoNewline(ts) {
      SplitAfterAppend(content, ts);
    }
  }

  /** Re-splitting the text with the appended marker line. */
  lemma SplitAfterAppend(content: string, ts: string)
    requires NoNewline(ts)
    ensures Split(content + "\n\n" + MarkerLine(ts)) == Split(content) + ["", MarkerLine(ts)]
  {
    var line := MarkerLine(ts);
    var empty: string := [];
    calc {
      Split(content + "\n\n" + line);
      { assert content + "\n\n" + line == content + "\n" + (empty + "\n" + line); }
      Split(content + "\n" + (empty + "\n" + line));
      { SplitAroundNewline(content, empty + "\n" + line); }
      Split(content) + Split(empty + "\n" + line);
      { MarkerLineIsLine(ts);
        SplitLine(line);
        assert NoNewline(empty);
        SplitFirstLine(empty, line); }
      Split(content) + ([empty] + [line]);
      Split(content) + ["", line];
    }
  }

  /** A one-line header followed by two newlines gains two empty lines and the
      marker line. */
  lemma HeaderText(title: string, ts: string)
    requires NoNewline(title) && !Contains(title, Marker)
    ensures EditText(title + "\n\n", ts) == title + "\n\n\n\n" + MarkerLine(ts)
  {
    var content := title + "\n\n";
    calc {
      EditText(content, ts);
      { SplitHeader(title);
        NotContainsWithoutFirstChar("", Marker);
        assert NoMarker(Split(content));
        EditTextAppends(content, ts); }
      content + "\n\n" + MarkerLine(ts);
      { assert content + "\n\n" == title + "\n\n\n\n"; }
      title + "\n\n\n\n" + MarkerLine(ts);
    }
  }

  /** A one-line header followed by two newlines splits into the header and two empty lines. */
  lemma SplitHeader(title: string)
    requires NoNewline(title)
    ensures Split(title + "\n\n") == [title, "", ""]
  {
    var empty: string := [];
    var nl := empty + "\n" + empty;
    assert title + "\n\n" == title + "\n" + nl;
    assert Split(empty) == [empty];
    SplitAroundNewline(empty, empty);
    SplitLine(title);
    SplitAroundNewline(title, nl);
  }

  /** A missing README becomes the default header, two empty lines and the marker line. */
  lemma AbsentFileText(ts: string)
    ensures EditText(ContentOf(None), ts) == "# Auto-Updated README\n\n\n\nLast updated: " + ts
  {
    assert NoNewline(Title);
    NotContainsWithoutFirstChar(Title, Marker);
    HeaderText(Title, ts);
    DefaultTextSpelledOut(Title, ts);
  }

  /** The default text written out character by character. */
  lemma DefaultTextSpelledOut(title: string, ts: string)
    requires title == "# Auto-Updated README"
    ensures title + "\n\n\n\n" + MarkerLine(ts) == "# Auto-Updated README\n\n\n\nLast updated: " + ts
  {
    var head := title + "\n\n\n\n" + Marker + " ";
    assert head == "# Auto-Updated README\n\n\n\nLast updated: ";
    assert title + "\n\n\n\n" + MarkerLine(ts) == head + ts;
  }

  /** The written text always has a first marker line, and it is the new marker line. */
  lemma EditedHasMarker(content: string, ts: string) returns (i: nat)
    requires NoNewline(ts)
    ensures IsFirstMarker(Split(EditText(content, ts)), i)
    ensures Split(EditText(content, ts))[i] == MarkerLine(ts)
  {
    var lines := Split(content);
    MarkerLineIsLine(ts);
    match FindMarker(lines)
    case Some(k) =>
      EditTextReplaces(content, ts, k);
      i := k;
    case None =>
      EditTextAppends(content, ts);
      NotContainsWithoutFirstChar("", Marker);
      i := |lines| + 1;
      var out := lines + ["", MarkerLine(ts)];
      assert out[|lines|] == "";
  }

  /** Editing already-edited text only replaces its marker line: the number of
      lines stays the same, so a second marker line is never appended. */
  lemma ReEditReplaces(content: string, ts1: string, ts2: string) returns (i: nat)
    requires NoNewline(ts1) && NoNewline(ts2)
    ensures IsFirstMarker(Split(EditText(content, ts1)), i)
    ensures Split(EditText(content, ts1))[i] == MarkerLine(ts1)
    ensures Split(EditText(EditText(content, ts1), ts2)) ==
            Split(EditText(content, ts1))[i := MarkerLine(ts2)]
    ensures |Split(EditText(EditText(content, ts1), ts2))| == |Split(EditText(content, ts1))|
  {
    i := EditedHasMarker(content, ts1);
    EditTextReplaces(EditText(content, ts1), ts2, i);
  }

  /** With the same timestamp, a second edit changes nothing. */
  lemma EditIdempotent(content: string, ts: string)
    requires NoNewline(ts)
    ensures EditText(EditText(content, ts), ts) == EditText(content, ts)
  {
    var once := EditText(content, ts);
    var i := ReEditReplaces(content, ts, ts);
    assert Split(once)[i := MarkerLine(ts)] == Split(once);
    JoinSplit(once);
    JoinSplit(EditText(once, ts));
  }
}
