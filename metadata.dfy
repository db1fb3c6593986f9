/**
  Metadata of a report page, pulled from its plain text: the sampling date
  and the name of the test item. Both lookups always succeed; when the text
  holds no match they yield a fixed placeholder.

  The two patterns are written out as leftmost-match scanners. A digit is an
  ASCII digit; whitespace is the ASCII whitespace set plus the ideographic
  space U+3000.
 */
module Metadata {
  import opened Wrappers

  /** Placeholder for a page without a date ("sampling time not found"). */
  const DateSentinel: string := "采集时间未找到"

  /** Placeholder for a page without a test item ("test item not found"). */
  const LabelSentinel: string := "检验项目未找到"

  /** The field name that introduces the test item ("test item"). */
  const LabelMarker: string := "检验项目"

  /** Length of a `DDDD-DD-DD DD:DD` timestamp. */
  const StampLength: nat := 16

  /** Length of the date part kept from a timestamp. */
  const DateLength: nat := 10

  predicate IsDigit(c: char)
  {
    '0' <= c <= '9'
  }

  /** `n` digits start at position `i` of `s`. */
  predicate DigitsAt(s: string, i: nat, n: nat)
    requires i + n <= |s|
  {
    forall k | i <= k < i + n :: IsDigit(s[k])
  }

  /** A timestamp `DDDD-DD-DD DD:DD` starts at position `i` of `s`. */
  predicate StampAt(s: string, i: nat)
  {
    && i + StampLength <= |s|
    && DigitsAt(s, i, 4) && s[i + 4] == '-'
    && DigitsAt(s, i + 5, 2) && s[i + 7] == '-'
    && DigitsAt(s, i + 8, 2) && s[i + 10] == ' '
    && DigitsAt(s, i + 11, 2) && s[i + 13] == ':'
    && DigitsAt(s, i + 14, 2)
  }

  /** Position `i` is where a search for a timestamp stops: one starts there and none starts before. */
  predicate LeftmostStamp(s: string, i: nat)
  {
    StampAt(s, i) && forall j | 0 <= j < i :: !StampAt(s, j)
  }

  /** The leftmost timestamp starting at or after `from`. */
  function FindStamp(s: string, from: nat): (r: Option<nat>)
    ensures r.None? ==> forall i: nat | from <= i :: !StampAt(s, i)
    ensures r.Some? ==> from <= r.value && StampAt(s, r.value)
                        && forall i | from <= i < r.value :: !StampAt(s, i)
    decreases |s| - from
  {
    if from + StampLength > |s| then None
    else if StampAt(s, from) then Some(from)
    else FindStamp(s, from + 1)
  }

  /**
    The date of a page: the first ten characters of the leftmost timestamp
    in the text, or the placeholder when the text holds none. A found date is
    never the placeholder, so the placeholder marks exactly the texts without
    a timestamp.
   */
  function ExtractDate(text: string): (date: string)
    ensures (exists i: nat :: StampAt(text, i)) ==>
              exists i: nat :: LeftmostStamp(text, i) && date == text[i..i + DateLength]
    ensures date == DateSentinel <==> forall i: nat :: !StampAt(text, i)
  {
    match FindStamp(text, 0)
    case Some(i) =>
      assert LeftmostStamp(text, i);
      assert IsDigit(text[i]) && !IsDigit(DateSentinel[0]);
      text[i..i + DateLength]
    case None => DateSentinel
  }

  /** The date part of a found timestamp reads `DDDD-DD-DD`. */
  lemma DateShape(text: string)
    requires ExtractDate(text) != DateSentinel
    ensures var d := ExtractDate(text);
            |d| == DateLength && DigitsAt(d, 0, 4) && d[4] == '-' && DigitsAt(d, 5, 2) && d[7] == '-' && DigitsAt(d, 8, 2)
  {
    var i: nat :| LeftmostStamp(text, i) && ExtractDate(text) == text[i..i + DateLength];
    var d := ExtractDate(text);
    assert forall k | 0 <= k < DateLength :: d[k] == text[i + k];
  }

  // ---------------------------------------------------------------------------
  // The test-item field

  /** The ASCII colon or the full-width colon. */
  predicate IsColon(c: char)
  {
    c == ':' || c == '：'
  }

  /** The whitespace a `\s` matches, restricted as described above. */
  predicate IsSpace(c: char)
  {
    c == ' ' || c == '\t' || c == '\n' || c == '\r' || c == '\U{000B}' || c == '\U{000C}' || c == '\U{3000}'
  }

  /** Length of the marker and its colon. */
  const FieldHead: nat := 5

  /** The marker followed by a colon starts at position `i`. */
  predicate MarkerAt(s: string, i: nat)
  {
    i + FieldHead <= |s| && s[i..i + 4] == LabelMarker && IsColon(s[i + 4])
  }

  /** The pattern matches at `i`: the marker and its colon, and a line break somewhere after them. */
  predicate FieldAt(s: string, i: nat)
  {
    MarkerAt(s, i) && exists m | i + FieldHead <= m < |s| :: s[m] == '\n'
  }

  /** Position `i` is where a search for the field stops. */
  predicate LeftmostField(s: string, i: nat)
  {
    FieldAt(s, i) && forall j | 0 <= j < i :: !FieldAt(s, j)
  }

  /** The end of the run of whitespace starting at `p` (the greedy `\s*`). */
  function SpaceEnd(s: string, p: nat): (q: nat)
    requires p <= |s|
    ensures p <= q <= |s|
    ensures forall k | p <= k < q :: IsSpace(s[k])
    ensures q == |s| || !IsSpace(s[q])
    decreases |s| - p
  {
    if p == |s| || !IsSpace(s[p]) then p else SpaceEnd(s, p + 1)
  }

  /** The first line break at or after `p`. */
  function NextNewline(s: string, p: nat): (r: Option<nat>)
    requires p <= |s|
    ensures r.None? ==> forall k | p <= k < |s| :: s[k] != '\n'
    ensures r.Some? ==> p <= r.value < |s| && s[r.value] == '\n' && forall k | p <= k < r.value :: s[k] != '\n'
    decreases |s| - p
  {
    if p == |s| then None
    else if s[p] == '\n' then Some(p)
    else NextNewline(s, p + 1)
  }

  /**
    Where the lazy group of a match at `i` lies. Let `q` end the whitespace
    run after the colon. The group is empty exactly when no line break
    follows `q`; otherwise it starts at `q` and is followed by a line break.
   */
  predicate GroupPlaced(s: string, i: nat, c: string)
    requires FieldAt(s, i)
  {
    var q := SpaceEnd(s, i + FieldHead);
    && (c == [] <==> forall k | q <= k < |s| :: s[k] != '\n')
    && (c != [] ==> q + |c| < |s| && s[q..q + |c|] == c && s[q + |c|] == '\n')
  }

  /**
    The captured group of a match at `i`. The whitespace run after the colon
    is skipped; the group is then everything up to the next line break. When
    no line break follows the run, the run itself holds the break and the
    pattern backs into it, capturing nothing. The group never holds a line
    break, ends right before one, and does not begin with whitespace.
   */
  function Capture(s: string, i: nat): (c: string)
    requires FieldAt(s, i)
    ensures '\n' !in c
    ensures exists m | i + FieldHead + |c| <= m < |s| :: s[m] == '\n' && s[m - |c|..m] == c
    ensures c == [] || !IsSpace(c[0])
    ensures GroupPlaced(s, i, c)
  {
    var q := SpaceEnd(s, i + FieldHead);
    match NextNewline(s, q)
    case Some(m) =>
      assert forall k | 0 <= k < m - q :: s[q..m][k] == s[q + k];
      s[q..m]
    case None => []
  }

  /** The contract of `Capture` leaves no choice: one group meets it. */
  lemma CaptureIsDetermined(s: string, i: nat, c: string)
    requires FieldAt(s, i)
    requires '\n' !in c && GroupPlaced(s, i, c)
    ensures c == Capture(s, i)
  {
  }

  /** The leftmost match of the field pattern at or after `from`. */
  function FindField(s: string, from: nat): (r: Option<nat>)
    ensures r.None? ==> forall i: nat | from <= i :: !FieldAt(s, i)
    ensures r.Some? ==> from <= r.value && FieldAt(s, r.value)
                        && forall i | from <= i < r.value :: !FieldAt(s, i)
    decreases |s| - from
  {
    if from + FieldHead > |s| then None
    else if FieldAt(s, from) then Some(from)
    else FindField(s, from + 1)
  }

  /**
    The test item of a page: the group captured at the leftmost match of
    the field pattern, or the placeholder when the text holds no match.
   */
  function ExtractLabel(text: string): (item: string)
    ensures (exists i: nat :: FieldAt(text, i)) ==>
              exists i: nat :: LeftmostField(text, i) && item == Capture(text, i)
    ensures (forall i: nat :: !FieldAt(text, i)) ==> item == LabelSentinel
  {
    match FindField(text, 0)
    case Some(i) =>
      assert LeftmostField(text, i);
      Capture(text, i)
    case None => LabelSentinel
  }

  // ---------------------------------------------------------------------------
  // The slide title

  /** The title of a slide: the test item, one space, the date. */
  function Title(item: string, date: string): (t: string)
    ensures |t| == |item| + 1 + |date|
    ensures t[..|item|] == item && t[|item|] == ' ' && t[|item| + 1..] == date
  {
    item + " " + date
  }

  /** A page without either field gets the two placeholders, joined by a space. */
  lemma TitleWithoutMetadata(text: string)
    requires forall i: nat :: !StampAt(text, i)
    requires forall i: nat :: !FieldAt(text, i)
    ensures Title(ExtractLabel(text), ExtractDate(text)) == LabelSentinel + " " + DateSentinel
  {
  }

  /** The report line used in the examples below. */
  const ExampleLine: string := "采集时间: 2024-03-15 08:30 检验项目：血常规\n"

  /** The date of a report line with both fields. */
  lemma DateExample()
    ensures ExtractDate(ExampleLine) == "2024-03-15"
  {
    ExampleStampPosition();
    ExampleDateText();
  }

  lemma ExampleStampPosition()
    ensures FindStamp(ExampleLine, 0) == Some(6)
  {
    var text := ExampleLine;
    assert StampAt(text, 6);
    forall j | 0 <= j < 6 ensures !StampAt(text, j) {
      assert text[j + 4] != '-';
    }
  }

  lemma ExampleDateText()
    ensures ExampleLine[6..16] == "2024-03-15"
  {
    var text := ExampleLine;
    assert text[6] == '2' && text[7] == '0' && text[8] == '2' && text[9] == '4' && text[10] == '-';
    assert text[11] == '0' && text[12] == '3' && text[13] == '-' && text[14] == '1' && text[15] == '5';
  }

  /** The test item of a report line with both fields. */
  lemma LabelExample()
    ensures ExtractLabel(ExampleLine) == "血常规"
  {
    var text := ExampleLine;
    assert |text| == 32;
    assert text[23..27] == LabelMarker && IsColon(text[27]) && text[31] == '\n';
    assert FieldAt(text, 23);
    forall j | 0 <= j < 23 ensures !FieldAt(text, j) {
      assert text[j] != LabelMarker[0];
    }
    assert FindField(text, 0) == Some(23);
    assert SpaceEnd(text, 28) == 28;
    assert NextNewline(text, 28) == Some(31);
  }
}
