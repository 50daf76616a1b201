/**
 * Turning a month's stored headline list back into plain text
 * (`headline_list_to_string`) and joining every month's text of a country
 * (`all_headlines_in_string`). The copy in processing.py returns "" for a
 * month with zero hits before it touches the headlines cell; the copy in
 * data_processing_helpers.py does not: `checkZeroHits` selects the copy.
 */
module Headlines {
  import opened PyText
  import opened Calendar
  import opened CountryTable

  /** The characters `strip("['']")` removes from both ends. */
  predicate IsListArtifact(c: char) { c == '[' || c == ']' || c == '\'' }

  /** The cleanup chain applied to a headlines cell: strip the list
      punctuation, turn each `', '` separator into a space, then delete
      every `’s` and every `'s`. */
  function Cleanup(headlines: string): string
  {
    var text := StripBy(headlines, IsListArtifact);
    var text1 := Replace(text, "', '", " ");
    var text2 := Replace(text1, "’s", "");
    Replace(text2, "'s", "")
  }

  /** The first row whose cell equals `value`. */
  function FirstIndexOf(cells: seq<string>, value: string): (r: Option<nat>)
    ensures r.None? <==> value !in cells
    ensures r.Some? ==> r.value < |cells| && cells[r.value] == value
    ensures r.Some? ==> forall j :: 0 <= j < r.value ==> cells[j] != value
  {
    if cells == [] then None
    else if cells[0] == value then Some(0)
    else match FirstIndexOf(cells[1..], value)
      case None => None
      case Some(k) => Some(k + 1)
  }

  /** The zero-hits test `data_frame["Number of Hits"][location] == 0` on a
      cell's text. */
  predicate HitsCellIsZero(cell: string)
  {
    ParseInt(cell) == Ok(0)
  }

  /** The text of row `loc`, once the row has been found. */
  function TextAt(t: Table, loc: nat, checkZeroHits: bool): Result<string>
    requires loc < |t.rows|
  {
    var hits := Column(t, "Number of Hits");
    if checkZeroHits && hits.Err? then Err(hits.error)
    else if checkZeroHits && HitsCellIsZero(hits.value[loc]) then Ok("")
    else match Column(t, "Month's Headlines")
      case Err(e) => Err(e)
      case Ok(cells) =>
        // a blank cell reads back as NaN, which has no `strip`
        if cells[loc] == "" then Err(AttributeError) else Ok(Cleanup(cells[loc]))
  }

  /** `headline_list_to_string(country_name, year_month)` on the country's
      table file. */
  function HeadlineListToString(file: Option<Table>, yearMonth: string, checkZeroHits: bool): Result<string>
  {
    match file
    case None => Err(FileNotFoundError)
    case Some(t) =>
      var date := Label(yearMonth);
      match Column(t, "MM-YYYY")
      case Err(e) => Err(e)
      case Ok(labels) =>
        match FirstIndexOf(labels, date)
        case None => Err(IndexError)
        case Some(loc) => TextAt(t, loc, checkZeroHits)
  }

  /** The text one label contributes, as the loop body computes it. */
  function MonthText(file: Option<Table>, item: string, checkZeroHits: bool): Result<string>
  {
    // a blank label reads back as NaN, which cannot be sliced
    if item == "" then Err(TypeError)
    else HeadlineListToString(file, FromLabel(item), checkZeroHits)
  }

  /** The texts of the labels in order, stopping at the first failure. */
  function TextsInOrder(text: string -> Result<string>, labels: seq<string>): Result<seq<string>>
  {
    if labels == [] then Ok([])
    else
      match TextsInOrder(text, labels[..|labels| - 1])
      case Err(e) => Err(e)
      case Ok(parts) =>
        match text(labels[|labels| - 1])
        case Err(e) => Err(e)
        case Ok(last) => Ok(parts + [last])
  }

  /** The label column of a file, or the error reading it raises. */
  function Labels(file: Option<Table>): Result<seq<string>>
  {
    match file
    case None => Err(FileNotFoundError)
    case Some(t) => Column(t, "MM-YYYY")
  }

  /** `all_headlines_in_string(country_name)`: one text per row of the label
      column, in row order, joined by single spaces. */
  function AllHeadlines(file: Option<Table>, checkZeroHits: bool): Result<string>
  {
    match Labels(file)
    case Err(e) => Err(e)
    case Ok(labels) =>
      match TextsInOrder(item => MonthText(file, item, checkZeroHits), labels)
      case Err(e) => Err(e)
      case Ok(parts) => Ok(Join(" ", parts))
  }

  /** `all_headlines_in_string` as the source runs it: a loop over the label
      column appending each month's text, then a join. */
  method AllHeadlinesInString(file: Option<Table>, checkZeroHits: bool) returns (r: Result<string>)
    ensures r == AllHeadlines(file, checkZeroHits)
  {
    var labels := Labels(file);
    if labels.Err? {
      return Err(labels.error);
    }
    ghost var f := item => MonthText(file, item, checkZeroHits);
    var monthHeadlineStrings: seq<string> := [];
    var i := 0;
    while i < |labels.value|
      invariant 0 <= i <= |labels.value|
      invariant TextsInOrder(f, labels.value[..i]) == Ok(monthHeadlineStrings)
    {
      var item := labels.value[i];
      assert labels.value[..i + 1][..i] == labels.value[..i];
      var text := MonthText(file, item, checkZeroHits);
      if text.Err? {
        assert TextsInOrder(f, labels.value[..i + 1]) == Err(text.error);
        ErrorPersists(f, labels.value, i + 1);
        return Err(text.error);
      }
      monthHeadlineStrings := monthHeadlineStrings + [text.value];
      i := i + 1;
    }
    assert labels.value[..i] == labels.value;
    r := Ok(Join(" ", monthHeadlineStrings));
  }

  // ---------------------------------------------------------------------
  // Properties

  /** A failure on a prefix of the labels is the failure of the whole run. */
  lemma {:induction false} ErrorPersists(text: string -> Result<string>, labels: seq<string>, j: nat)
    requires j <= |labels| && TextsInOrder(text, labels[..j]).Err?
    ensures TextsInOrder(text, labels) == TextsInOrder(text, labels[..j])
    decreases |labels|
  {
    if j == |labels| {
      assert labels[..j] == labels;
    } else {
      var init := labels[..|labels| - 1];
      assert init[..j] == labels[..j];
      ErrorPersists(text, init, j);
    }
  }

  /** The run succeeds exactly when every label's text does; then there is
      one text per label, in order. */
  lemma {:induction false} TextsInOrderOnePerRow(text: string -> Result<string>, labels: seq<string>)
    ensures TextsInOrder(text, labels).Ok? <==>
      forall i :: 0 <= i < |labels| ==> text(labels[i]).Ok?
    ensures TextsInOrder(text, labels).Ok? ==>
      |TextsInOrder(text, labels).value| == |labels| &&
      forall i :: 0 <= i < |labels| ==>
        TextsInOrder(text, labels).value[i] == text(labels[i]).value
  {
    if labels != [] {
      var init := labels[..|labels| - 1];
      TextsInOrderOnePerRow(text, init);
      assert forall i :: 0 <= i < |init| ==> init[i] == labels[i];
    }
  }

  /** Label `k` is the first whose text fails, and it fails with `e`. */
  predicate FailsFirstAt(text: string -> Result<string>, labels: seq<string>, k: int, e: PyError)
  {
    0 <= k < |labels| && text(labels[k]) == Err(e) &&
    forall i :: 0 <= i < k ==> text(labels[i]).Ok?
  }

  /** When the run fails, some label's text fails with that error and every
      label before it succeeds. */
  lemma {:induction false} TextsInOrderFirstError(text: string -> Result<string>, labels: seq<string>)
    requires TextsInOrder(text, labels).Err?
    ensures exists k :: FailsFirstAt(text, labels, k, TextsInOrder(text, labels).error)
  {
    var init := labels[..|labels| - 1];
    assert forall i :: 0 <= i < |init| ==> init[i] == labels[i];
    if TextsInOrder(text, init).Err? {
      TextsInOrderFirstError(text, init);
      var k :| FailsFirstAt(text, init, k, TextsInOrder(text, init).error);
      assert FailsFirstAt(text, labels, k, TextsInOrder(text, labels).error);
    } else {
      TextsInOrderOnePerRow(text, init);
      assert FailsFirstAt(text, labels, |labels| - 1, TextsInOrder(text, labels).error);
    }
  }

  /** Every row of the label column contributes one text, in row order: the
      join is over exactly the month texts of the rows, and a failure is the
      failure of the first row that fails. */
  lemma AllHeadlinesOnePerRow(file: Option<Table>, checkZeroHits: bool)
    requires Labels(file).Ok?
    ensures var labels := Labels(file).value;
      AllHeadlines(file, checkZeroHits).Ok? <==>
        forall i :: 0 <= i < |labels| ==> MonthText(file, labels[i], checkZeroHits).Ok?
    ensures var labels := Labels(file).value;
      AllHeadlines(file, checkZeroHits).Ok? ==>
        AllHeadlines(file, checkZeroHits).value ==
          Join(" ", seq(|labels|, i requires 0 <= i < |labels| => MonthText(file, labels[i], checkZeroHits).value))
  {
    AllHeadlinesSucceeds(file, checkZeroHits);
    if AllHeadlines(file, checkZeroHits).Ok? {
      AllHeadlinesTexts(file, checkZeroHits);
    }
  }

  /** The join succeeds exactly when every row's month text does. */
  lemma AllHeadlinesSucceeds(file: Option<Table>, checkZeroHits: bool)
    requires Labels(file).Ok?
    ensures var labels := Labels(file).value;
      AllHeadlines(file, checkZeroHits).Ok? <==>
        forall i :: 0 <= i < |labels| ==> MonthText(file, labels[i], checkZeroHits).Ok?
  {
    TextsInOrderOnePerRow(item => MonthText(file, item, checkZeroHits), Labels(file).value);
  }

  /** A successful join is over the month texts of the rows, in order. */
  lemma AllHeadlinesTexts(file: Option<Table>, checkZeroHits: bool)
    requires Labels(file).Ok? && AllHeadlines(file, checkZeroHits).Ok?
    requires var labels := Labels(file).value;
      forall i :: 0 <= i < |labels| ==> MonthText(file, labels[i], checkZeroHits).Ok?
    ensures var labels := Labels(file).value;
      AllHeadlines(file, checkZeroHits).value ==
        Join(" ", seq(|labels|, i requires 0 <= i < |labels| => MonthText(file, labels[i], checkZeroHits).value))
  {
    var labels := Labels(file).value;
    var f := item => MonthText(file, item, checkZeroHits);
    TextsInOrderOnePerRow(f, labels);
    assert TextsInOrder(f, labels).value ==
      seq(|labels|, i requires 0 <= i < |labels| => MonthText(file, labels[i], checkZeroHits).value);
  }

  /** A well-shaped label names its own row when the labels are distinct:
      reading a label back into a month and looking that month up again finds
      the row the label came from. */
  lemma LabelFindsItsRow(t: Table, i: nat, checkZeroHits: bool)
    requires Column(t, "MM-YYYY").Ok?
    requires var labels := Column(t, "MM-YYYY").value;
      i < |labels| && LabelShaped(labels[i]) &&
      forall j :: 0 <= j < i ==> labels[j] != labels[i]
    ensures HeadlineListToString(Some(t), FromLabel(Column(t, "MM-YYYY").value[i]), checkZeroHits)
            == TextAt(t, i, checkZeroHits)
  {
    var labels := Column(t, "MM-YYYY").value;
    LabelOfFromLabel(labels[i]);
    var loc := FirstIndexOf(labels, labels[i]);
    assert loc.Some?;
    assert loc.value == i;
  }

  /** A headline that `str` of a list writes between plain single quotes and
      that the cleanup leaves intact. */
  predicate Plain(h: string)
  {
    |h| > 0 &&
    forall i :: 0 <= i < |h| ==>
      ReprVerbatim(h[i]) && h[i] != '[' && h[i] != ']' && h[i] != '’'
  }

  function Quote(h: string): string { "'" + h + "'" }

  function QuoteAll(hs: seq<string>): (r: seq<string>)
    ensures |r| == |hs|
    ensures forall i :: 0 <= i < |hs| ==> r[i] == Quote(hs[i])
  {
    if hs == [] then [] else [Quote(hs[0])] + QuoteAll(hs[1..])
  }

  lemma {:induction false} JoinQuoted(hs: seq<string>)
    requires |hs| > 0
    ensures Join(", ", QuoteAll(hs)) == "'" + Join("', '", hs) + "'"
  {
    if |hs| > 1 {
      var rest := hs[1..];
      var q := QuoteAll(hs);
      assert q[1..] == QuoteAll(rest);
      JoinQuoted(rest);
      calc {
        Join(", ", q);
        q[0] + ", " + Join(", ", QuoteAll(rest));
        "'" + hs[0] + "'" + ", " + ("'" + Join("', '", rest) + "'");
        "'" + (hs[0] + "', '" + Join("', '", rest)) + "'";
      }
    }
  }

  lemma ReprAllOfPlain(hs: seq<string>)
    requires forall i :: 0 <= i < |hs| ==> Plain(hs[i])
    ensures ReprAll(hs) == QuoteAll(hs)
  {
    forall i | 0 <= i < |hs| ensures ReprAll(hs)[i] == QuoteAll(hs)[i] {
      PyStrReprVerbatim(hs[i]);
    }
  }

  /** `str` of a list of plain headlines quotes each one and separates them
      by `, `. */
  lemma ListReprOfPlain(hs: seq<string>)
    requires |hs| > 0
    requires forall i :: 0 <= i < |hs| ==> Plain(hs[i])
    ensures PyListRepr(hs) == "['" + Join("', '", hs) + "']"
  {
    var x := Join("', '", hs);
    ReprAllOfPlain(hs);
    JoinQuoted(hs);
    assert PyListRepr(hs) == "[" + ("'" + x + "'") + "]";
    Bracketed(x);
  }

  lemma Bracketed(x: string)
    ensures "[" + ("'" + x + "'") + "]" == "['" + x + "']"
  {
    assert "[" + "'" == "['";
    assert "'" + "]" == "']";
    Regroup("[", "'", x, "'", "]");
  }

  lemma Regroup(a: string, b: string, x: string, c: string, d: string)
    ensures a + (b + x + c) + d == (a + b) + x + (c + d)
  {
  }

  /** Stripping a prefix and a suffix made only of removable characters
      leaves a middle part whose two end characters are kept. */
  lemma StripExact(p: string, m: string, q: string, inSet: char -> bool)
    requires forall i :: 0 <= i < |p| ==> inSet(p[i])
    requires forall i :: 0 <= i < |q| ==> inSet(q[i])
    requires |m| > 0 && !inSet(m[0]) && !inSet(m[|m| - 1])
    ensures StripBy(p + m + q, inSet) == m
  {
    var s := p + m + q;
    assert s[|p|] == m[0];
    LeadingCountExact(s, |p|, inSet);
    var rest := s[|p|..];
    assert rest == m + q;
    assert rest[|rest| - 1 - |q|] == m[|m| - 1];
    TrailingCountExact(rest, |q|, inSet);
    assert rest[..|rest| - |q|] == m;
  }

  /** A text that starts and ends with kept characters is left as it is. */
  lemma StripKeeps(s: string, inSet: char -> bool)
    requires |s| > 0 && !inSet(s[0]) && !inSet(s[|s| - 1])
    ensures StripBy(s, inSet) == s
  {
    LeadingCountExact(s, 0, inSet);
    TrailingCountExact(s, 0, inSet);
  }

  lemma {:induction false} JoinAvoids(sep: string, parts: seq<string>, c: char)
    requires c !in sep
    requires forall i :: 0 <= i < |parts| ==> c !in parts[i]
    ensures c !in Join(sep, parts)
  {
    if |parts| > 1 {
      JoinAvoids(sep, parts[1..], c);
    }
  }

  lemma {:induction false} ReplaceSeparators(hs: seq<string>)
    requires |hs| > 0
    requires forall i :: 0 <= i < |hs| ==> '\'' !in hs[i]
    ensures Replace(Join("', '", hs), "', '", " ") == Join(" ", hs)
  {
    var pat := "', '";
    if |hs| == 1 {
      ReplaceAbsent(hs[0], pat, " ");
    } else {
      var rest := Join(pat, hs[1..]);
      ReplaceSkips(hs[0], pat + rest, pat, " ");
      ReplaceAtFront(rest, pat, " ");
      ReplaceSeparators(hs[1..]);
      assert Join(pat, hs) == hs[0] + (pat + rest);
      assert Join(" ", hs) == hs[0] + (" " + Join(" ", hs[1..]));
    }
  }

  /** The cleanup undoes `str` of a list of plain headlines: what comes back
      is the headlines joined by single spaces. */
  lemma CleanupOfListRepr(hs: seq<string>)
    requires forall i :: 0 <= i < |hs| ==> Plain(hs[i])
    ensures Cleanup(PyListRepr(hs)) == Join(" ", hs)
  {
    if hs == [] {
      CleanupOfEmptyList();
    } else {
      StripOfPlainList(hs);
      ReplaceSeparators(hs);
      var joined := Join(" ", hs);
      NoQuotesInJoin(hs);
      ReplaceAbsent(joined, "’s", "");
      ReplaceAbsent(joined, "'s", "");
    }
  }

  lemma CleanupOfEmptyList()
    ensures Cleanup(PyListRepr([])) == ""
  {
    assert PyListRepr([]) == "[]";
    LeadingCountExact("[]", 2, IsListArtifact);
    assert StripBy("[]", IsListArtifact) == "";
  }

  /** The strip removes exactly the brackets and the outer quotes. */
  lemma StripOfPlainList(hs: seq<string>)
    requires |hs| > 0
    requires forall i :: 0 <= i < |hs| ==> Plain(hs[i])
    ensures StripBy(PyListRepr(hs), IsListArtifact) == Join("', '", hs)
  {
    var inner := Join("', '", hs);
    EndsOfJoin(hs);
    assert |inner| > 0;
    assert !IsListArtifact(inner[0]);
    assert !IsListArtifact(inner[|inner| - 1]);
    StripOfBracketed(inner);
    ListReprOfPlain(hs);
  }

  lemma StripOfBracketed(inner: string)
    requires |inner| > 0 && !IsListArtifact(inner[0]) && !IsListArtifact(inner[|inner| - 1])
    ensures StripBy("['" + inner + "']", IsListArtifact) == inner
  {
    OuterArtifacts();
    StripExact("['", inner, "']", IsListArtifact);
  }

  /** The joined headlines begin and end with a character the strip keeps. */
  lemma EndsOfJoin(hs: seq<string>)
    requires |hs| > 0
    requires forall i :: 0 <= i < |hs| ==> Plain(hs[i])
    ensures var inner := Join("', '", hs);
      |inner| > 0 && !IsListArtifact(inner[0]) && !IsListArtifact(inner[|inner| - 1])
  {
    var last := hs[|hs| - 1];
    assert Plain(hs[0]) && Plain(last);
    assert ReprVerbatim(hs[0][0]) && hs[0][0] != '[' && hs[0][0] != ']';
    assert ReprVerbatim(last[|last| - 1]) && last[|last| - 1] != '[' && last[|last| - 1] != ']';
    JoinFirst("', '", hs);
    JoinLast("', '", hs);
  }

  lemma OuterArtifacts()
    ensures forall i :: 0 <= i < |"['"| ==> IsListArtifact("['"[i])
    ensures forall i :: 0 <= i < |"']"| ==> IsListArtifact("']"[i])
  {
  }

  lemma NoQuotesInJoin(hs: seq<string>)
    requires forall i :: 0 <= i < |hs| ==> Plain(hs[i])
    ensures '\'' !in Join(" ", hs) && '’' !in Join(" ", hs)
  {
    forall i | 0 <= i < |hs| ensures '\'' !in hs[i] && '’' !in hs[i] {
      assert forall k :: 0 <= k < |hs[i]| ==> hs[i][k] != '\'' && hs[i][k] != '’';
    }
    JoinAvoids(" ", hs, '’');
    JoinAvoids(" ", hs, '\'');
  }

  lemma JoinFirst(sep: string, parts: seq<string>)
    requires |parts| > 0 && |parts[0]| > 0
    ensures |Join(sep, parts)| > 0 && Join(sep, parts)[0] == parts[0][0]
  {
  }

  lemma {:induction false} JoinLast(sep: string, parts: seq<string>)
    requires |parts| > 0 && |parts[|parts| - 1]| > 0
    ensures |Join(sep, parts)| > 0
    ensures Join(sep, parts)[|Join(sep, parts)| - 1] == parts[|parts| - 1][|parts[|parts| - 1]| - 1]
  {
    if |parts| > 1 {
      JoinLast(sep, parts[1..]);
    }
  }

  /** The columns of a table holding one written row. */
  lemma SingleInfoRow(row: seq<string>)
    requires |row| == |InfoColumns|
    ensures var t := Table(InfoColumns, [row]);
      Column(t, "MM-YYYY") == Ok([row[1]]) &&
      Column(t, "Number of Hits") == Ok([row[2]]) &&
      Column(t, "Month's Headlines") == Ok([row[3]])
  {
    assert ColumnIndex(InfoColumns, "MM-YYYY") == Some(1);
    ColumnOfSingleRow(InfoColumns, row, "MM-YYYY", 1);
    assert ColumnIndex(InfoColumns, "Number of Hits") == Some(2);
    ColumnOfSingleRow(InfoColumns, row, "Number of Hits", 2);
    assert ColumnIndex(InfoColumns, "Month's Headlines") == Some(3);
    ColumnOfSingleRow(InfoColumns, row, "Month's Headlines", 3);
  }

  /** A month written with plain headlines and some hits reads back, through
      either copy of `headline_list_to_string`, as those headlines joined by
      spaces. */
  lemma WrittenMonthReadsBack(country: string, ym: string, hits: nat, hs: seq<string>, checkZeroHits: bool)
    requires hits > 0
    requires forall i :: 0 <= i < |hs| ==> Plain(hs[i])
    ensures var t := Table(InfoColumns, [InfoRow(country, Label(ym), hits, HeadlineList(hs))]);
      HeadlineListToString(Some(t), ym, checkZeroHits) == Ok(Join(" ", hs))
  {
    var row := InfoRow(country, Label(ym), hits, HeadlineList(hs));
    var t := Table(InfoColumns, [row]);
    SingleInfoRow(row);
    assert FirstIndexOf([Label(ym)], Label(ym)) == Some(0);
    assert HeadlineListToString(Some(t), ym, checkZeroHits) == TextAt(t, 0, checkZeroHits);
    ParseIntOfNatToString(hits);
    assert !HitsCellIsZero(NatToString(hits));
    assert PyListRepr(hs)[0] == '[';
    CleanupOfListRepr(hs);
  }

  /** A month written with zero hits reads back as "" through the copy that
      checks the hit count, and raises AttributeError (its headlines cell is
      blank) through the copy that does not. */
  lemma ZeroHitMonthReadsBack(country: string, ym: string)
    ensures var t := Table(InfoColumns, [InfoRow(country, Label(ym), 0, NoHeadlines)]);
      HeadlineListToString(Some(t), ym, true) == Ok("") &&
      HeadlineListToString(Some(t), ym, false) == Err(AttributeError)
  {
    var row := InfoRow(country, Label(ym), 0, NoHeadlines);
    var t := Table(InfoColumns, [row]);
    SingleInfoRow(row);
    assert FirstIndexOf([Label(ym)], Label(ym)) == Some(0);
    ParseIntOfNatToString(0);
  }

  /** Two plain headlines written as a list come back separated by one
      space. */
  lemma CleanupOfTwo(a: string, b: string)
    requires Plain(a) && Plain(b)
    ensures Cleanup("['" + a + "', '" + b + "']") == a + " " + b
  {
    TwoAsList(a, b);
    CleanupOfListRepr([a, b]);
  }

  lemma TwoAsList(a: string, b: string)
    requires Plain(a) && Plain(b)
    ensures PyListRepr([a, b]) == "['" + a + "', '" + b + "']"
    ensures Join(" ", [a, b]) == a + " " + b
  {
    var hs := [a, b];
    ListReprOfPlain(hs);
    assert hs[1..] == [b];
    assert Join("', '", hs) == a + "', '" + b;
    assert "['" + (a + "', '" + b) + "']" == "['" + a + "', '" + b + "']";
  }

  /** The cleanup is its four steps one after the other. */
  lemma CleanupBySteps(h: string, stripped: string, spaced: string, uncurled: string, r: string)
    requires StripBy(h, IsListArtifact) == stripped
    requires Replace(stripped, "', '", " ") == spaced
    requires Replace(spaced, "’s", "") == uncurled
    requires Replace(uncurled, "'s", "") == r
    ensures Cleanup(h) == r
  {
  }

  /** A text the cleanup leaves alone: it neither begins nor ends with a
      list character, and none of `', '`, `’s` and `'s` occurs in it. Other
      quote characters may occur anywhere inside it. */
  predicate Kept(s: string)
  {
    (|s| > 0 ==> !IsListArtifact(s[0]) && !IsListArtifact(s[|s| - 1])) &&
    !Contains(s, "', '") && !Contains(s, "’s") && !Contains(s, "'s")
  }

  /** The cleanup removes no quote character that is not part of `', '`,
      `’s` or `'s`, and away from the ends. */
  lemma CleanupKeeps(s: string)
    requires Kept(s)
    ensures Cleanup(s) == s
  {
    if |s| > 0 {
      StripKeeps(s, IsListArtifact);
    }
    ReplaceNoMatch(s, "', '", " ");
    ReplaceNoMatch(s, "’s", "");
    ReplaceNoMatch(s, "'s", "");
    CleanupBySteps(s, s, s, s, s);
  }

  /** A single headline between `['` and `']` comes back as it was, with
      any quote characters inside it. */
  lemma CleanupOfQuotedText(s: string)
    requires |s| > 0 && Kept(s)
    ensures Cleanup("['" + s + "']") == s
  {
    StripOfBracketed(s);
    ReplaceNoMatch(s, "', '", " ");
    ReplaceNoMatch(s, "’s", "");
    ReplaceNoMatch(s, "'s", "");
    CleanupBySteps("['" + s + "']", s, s, s, s);
  }

  /** A headline with a single quote and no double quote is written by
      `repr` in double quotes, which the strip does not remove: it comes
      back as `"h"`. */
  lemma CleanupOfApostropheHeadline(h: string)
    requires '\'' in h
    requires forall i :: 0 <= i < |h| ==> ReprVerbatimInDouble(h[i])
    requires Kept("\"" + h + "\"")
    ensures Cleanup(PyListRepr([h])) == "\"" + h + "\""
  {
    var q := "\"" + h + "\"";
    PyStrReprApostrophe(h);
    assert ReprAll([h]) == [q];
    assert PyListRepr([h]) == "[" + q + "]";
    assert StripBy("[" + q + "]", IsListArtifact) == q by {
      StripExact("[", q, "]", IsListArtifact);
    }
    ReplaceNoMatch(q, "', '", " ");
    ReplaceNoMatch(q, "’s", "");
    ReplaceNoMatch(q, "'s", "");
    CleanupBySteps("[" + q + "]", q, q, q, q);
  }

  /** No character of `a` is touched by the strip or starts a pattern the
      cleanup replaces. */
  predicate Untouched(a: string)
  {
    forall i :: 0 <= i < |a| ==> !IsListArtifact(a[i]) && a[i] != '’'
  }

  /** The full cleanup can end on a list character: deleting a final `'s`
      after the strip exposes the `]` before it, so `[a]'s]` becomes `a]`. */
  lemma CleanupCanEndOnBracket(a: string)
    requires |a| > 0 && Untouched(a)
    ensures Cleanup("[" + a + "]'s]") == a + "]"
  {
    var text := a + "]'s";
    assert "[" + a + "]'s]" == "[" + text + "]";
    assert StripBy("[" + a + "]'s]", IsListArtifact) == text by {
      StripExact("[", text, "]", IsListArtifact);
    }
    assert Replace(text, "', '", " ") == text by { BracketTailKeepsSeparators(a); }
    assert Replace(text, "’s", "") == text by { KeepsCurly(a, "]'s"); }
    assert Replace(text, "'s", "") == a + "]" by { BracketTailDropsPossessive(a); }
    CleanupBySteps("[" + a + "]'s]", text, text, text, a + "]");
  }

  /** No `', '` separator occurs in `a]'s`. */
  lemma BracketTailKeepsSeparators(a: string)
    requires Untouched(a)
    ensures Replace(a + "]'s", "', '", " ") == a + "]'s"
  {
    ReplaceSkips(a, "]'s", "', '", " ");
    ReplaceStep("]'s", "', '", " ");
    assert "]'s"[1..] == "'s";
    assert [']'] + "'s" == "]'s";
  }

  /** No `’s` occurs in `a` followed by a tail without `’`. */
  lemma KeepsCurly(a: string, tail: string)
    requires Untouched(a) && '’' !in tail
    ensures Replace(a + tail, "’s", "") == a + tail
  {
    ReplaceAbsent(a + tail, "’s", "");
  }

  /** Deleting `'s` from `a]'s` removes exactly the final one. */
  lemma BracketTailDropsPossessive(a: string)
    requires Untouched(a)
    ensures Replace(a + "]'s", "'s", "") == a + "]"
  {
    ReplaceSkips(a + "]", "'s", "'s", "");
    ReplaceAtFront("", "'s", "");
    assert a + "]'s" == (a + "]") + "'s";
    assert "'s" == "'s" + "";
  }

  /** Deleting `'s` can leave an `'s` behind: removing the one that starts
      at the second quote of `''ss` joins the first quote to the last `s`,
      so `a''ss` comes back as `a's`. */
  lemma PossessiveCanReappear(a: string)
    requires |a| > 0 && Untouched(a)
    ensures Cleanup(a + "''ss") == a + "'s"
  {
    var text := a + "''ss";
    assert StripBy(text, IsListArtifact) == text by {
      assert text[0] == a[0] && text[|text| - 1] == 's';
      StripKeeps(text, IsListArtifact);
    }
    assert Replace(text, "', '", " ") == text by { DoubleQuoteTailKeepsSeparators(a); }
    assert Replace(text, "’s", "") == text by { KeepsCurly(a, "''ss"); }
    assert Replace(text, "'s", "") == a + "'s" by { DoubleQuoteTailDropsOne(a); }
    CleanupBySteps(text, text, text, text, a + "'s");
  }

  /** No `', '` separator occurs in `a''ss`. */
  lemma DoubleQuoteTailKeepsSeparators(a: string)
    requires Untouched(a)
    ensures Replace(a + "''ss", "', '", " ") == a + "''ss"
  {
    ReplaceSkips(a, "''ss", "', '", " ");
    var t := "'ss";
    var s := ['\''] + t;
    assert s == "''ss";
    assert s[..4] != "', '" by { assert s[..4][2] == 's'; }
    assert s[1..] == t;
    assert Replace(t, "', '", " ") == t;
  }

  /** Only the `'s` at the second quote of `''ss` is deleted. */
  lemma DoubleQuoteTailDropsOne(a: string)
    requires Untouched(a)
    ensures Replace(a + "''ss", "'s", "") == a + "'s"
  {
    ReplaceSkips(a, "''ss", "'s", "");
    assert "''ss"[..2] != "'s";
    assert "''ss"[1..] == "'ss";
    ReplaceAtFront("s", "'s", "");
    assert "'ss" == "'s" + "s";
    assert Replace("s", "'s", "") == "s";
    assert ['\''] + "s" == "'s";
  }

}
