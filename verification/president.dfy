/**
 * The President scraper of president.py. A president's Wikipedia page is reduced to the
 * parts of its infobox the scraper looks at: the text of the `div.fn` name element, the
 * table rows with their header and data cells, and the attributes of the images. The
 * parsing steps are functions on that infobox; `President.Init` runs them in the order the
 * constructor does and fails with the step that would raise.
 */
module President {
  import opened Wrappers
  import opened PyStr
  import opened FindAll
  import opened Utils

  // ---------------------------------------------------------------- the page

  /** A `th` or `td` element: its tag name, its attributes and its text. */
  datatype Cell = Cell(tag: string, attrs: map<string, string>, text: string)

  /** A table row; the cells are siblings of one another. */
  datatype Row = Row(cells: seq<Cell>)

  /**
   * The `table.infobox.vcard` element: the text of its first `div.fn` (None when it has
   * none), its rows in document order, and the attributes of its `img` elements in order.
   */
  datatype Infobox = Infobox(nameDiv: Option<string>, rows: seq<Row>, images: seq<map<string, string>>)

  /** One government position: `{"title": …, "start": …, "end": …}`. */
  datatype Job = Job(title: string, start: string, end: string)

  /** The dictionary `compile_president` returns. */
  datatype Record = Record(number: string, name: string, party: string, born: string,
                           died: Option<string>, jobs: seq<Job>)

  /** The step at which the scraper raises: a lookup that found nothing, or `[0]` of an empty list. */
  datatype ParseError =
    | NoInfobox     // no `table.infobox.vcard`
    | NoName        // no `div.fn`
    | NoPartyCell   // no "Political party" header, or no `td` after it
    | NoPartyName   // the party cell holds no letter
    | NoBornCell    // no "Born" header, or no `td` after it
    | NoBornDate    // the born cell holds no date
    | NoDiedCell    // a "Died" header without a `td` after it
    | NoDiedDate    // the died cell holds no date
    | NoJobs        // `job_list[0]` of an empty job list
    | NoNumber      // the first job title does not start with a digit
    | NoImage       // the infobox has no `img`
    | NoImageSrc    // the first `img` has no `src`
    | NoImageUrl    // the `src` holds no `upload…jpg`

  const TitleStyle := "text-align:center;background:lavender;line-height:normal;padding:0.2em 0.2em"
  const DatesStyle := "text-align:center;border-bottom:none"

  /** All cells of the rows, in document order. */
  function Cells(rows: seq<Row>): (cells: seq<Cell>)
    decreases |rows|
  {
    if rows == [] then [] else rows[0].cells + Cells(rows[1..])
  }

  // ---------------------------------------------------------------- findAll

  /** The cell has the tag, `colspan="2"` and exactly the style. */
  predicate Selected(c: Cell, tag: string, style: string) {
    && c.tag == tag
    && "colspan" in c.attrs && c.attrs["colspan"] == "2"
    && "style" in c.attrs && c.attrs["style"] == style
  }

  /** `findAll(tag, colspan="2", style=style)`, each result read through `.text`. */
  function FindAllTexts(cells: seq<Cell>, tag: string, style: string): (texts: seq<string>)
    ensures |texts| <= |cells|
    decreases |cells|
  {
    if cells == [] then []
    else (if Selected(cells[0], tag, style) then [cells[0].text] else []) + FindAllTexts(cells[1..], tag, style)
  }

  /** findAll keeps document order: the matches of a concatenation are the matches of each part in turn. */
  lemma {:induction false} FindAllTextsAppend(a: seq<Cell>, b: seq<Cell>, tag: string, style: string)
    ensures FindAllTexts(a + b, tag, style) == FindAllTexts(a, tag, style) + FindAllTexts(b, tag, style)
    decreases |a|
  {
    if a == [] {
      assert a + b == b;
    } else {
      assert (a + b)[0] == a[0];
      assert (a + b)[1..] == a[1..] + b;
      FindAllTextsAppend(a[1..], b, tag, style);
    }
  }

  /** Every selected cell is reported, and every reported text is that of a selected cell. */
  lemma {:induction false} FindAllTextsMembers(cells: seq<Cell>, tag: string, style: string)
    ensures forall i :: 0 <= i < |cells| && Selected(cells[i], tag, style) ==>
              cells[i].text in FindAllTexts(cells, tag, style)
    ensures forall t :: t in FindAllTexts(cells, tag, style) ==>
              exists i :: 0 <= i < |cells| && Selected(cells[i], tag, style) && cells[i].text == t
    decreases |cells|
  {
    if cells != [] {
      FindAllTextsMembers(cells[1..], tag, style);
      forall t | t in FindAllTexts(cells[1..], tag, style)
        ensures exists i :: 0 <= i < |cells| && Selected(cells[i], tag, style) && cells[i].text == t
      {
        var i :| 0 <= i < |cells[1..]| && Selected(cells[1..][i], tag, style) && cells[1..][i].text == t;
        assert cells[i + 1] == cells[1..][i];
      }
      forall i | 0 <= i < |cells| && Selected(cells[i], tag, style)
        ensures cells[i].text in FindAllTexts(cells, tag, style)
      {
        if i > 0 {
          assert cells[i] == cells[1..][i - 1];
        }
      }
    }
  }

  /** No selected cell means no result. */
  lemma {:induction false} FindAllTextsNone(cells: seq<Cell>, tag: string, style: string)
    requires forall i :: 0 <= i < |cells| ==> !Selected(cells[i], tag, style)
    ensures FindAllTexts(cells, tag, style) == []
    decreases |cells|
  {
    if cells != [] {
      FindAllTextsNone(cells[1..], tag, style);
    }
  }

  // ---------------------------------------------------------------- parse_jobs, parse_jobs_dates

  /** The texts of the job-title header cells. */
  function TitleTexts(box: Infobox): seq<string> {
    FindAllTexts(Cells(box.rows), "th", TitleStyle)
  }

  /** The texts of the job-dates cells. */
  function DatesTexts(box: Infobox): seq<string> {
    FindAllTexts(Cells(box.rows), "td", DatesStyle)
  }

  /** `parse_jobs`: one cleaned title per title cell, in document order. */
  function ParseJobs(box: Infobox): (titles: seq<string>)
    ensures |titles| == |TitleTexts(box)|
    ensures forall k :: 0 <= k < |titles| ==> titles[k] == CleanExtraSpaces(TitleTexts(box)[k])
    ensures forall k :: 0 <= k < |titles| ==>
              && NoAdjacentSpaces(titles[k])
              && (titles[k] == [] || (!IsSpace(titles[k][0]) && !IsSpace(titles[k][|titles[k]| - 1])))
              && NonSpace(titles[k]) == NonSpace(TitleTexts(box)[k])
  {
    var texts := TitleTexts(box);
    seq(|texts|, k requires 0 <= k < |texts| => CleanExtraSpaces(texts[k]))
  }

  /** `parse_jobs_dates`: the list of dates of each dates cell, in document order. */
  function ParseJobsDates(box: Infobox): (dates: seq<seq<string>>)
    ensures |dates| == |DatesTexts(box)|
    ensures forall k :: 0 <= k < |dates| ==> dates[k] == ExtractDates(DatesTexts(box)[k])
  {
    var texts := DatesTexts(box);
    seq(|texts|, k requires 0 <= k < |texts| => ExtractDates(texts[k]))
  }

  /** Each dates cell yields the findall matches of its text, and every one of them is a date. */
  lemma ParseJobsDatesAreDates(box: Infobox)
    ensures forall k :: 0 <= k < |ParseJobsDates(box)| ==>
              && ParseJobsDates(box)[k] == ExtractDates(DatesTexts(box)[k])
              && forall l :: 0 <= l < |ParseJobsDates(box)[k]| ==> IsDate(ParseJobsDates(box)[k][l])
  {
    var dates := ParseJobsDates(box);
    forall k | 0 <= k < |dates|
      ensures dates[k] == ExtractDates(DatesTexts(box)[k])
      ensures forall l :: 0 <= l < |dates[k]| ==> IsDate(dates[k][l])
    {
      ExtractDatesAreDates(DatesTexts(box)[k]);
    }
  }

  // ---------------------------------------------------------------- compile_jobs

  /** Position i yields a job: the dates list exists and has a start and an end (else IndexError). */
  predicate Kept(titles: seq<string>, dates: seq<seq<string>>, i: nat) {
    i < |titles| && i < |dates| && |dates[i]| >= 2
  }

  /** The job built at position i, when it is kept. */
  function JobAt(titles: seq<string>, dates: seq<seq<string>>, i: nat): (j: Job)
    requires Kept(titles, dates, i)
  {
    Job(titles[i], dates[i][0], dates[i][1])
  }

  /** The job list after the loop has visited positions 0 .. n-1. */
  function JobsUpTo(titles: seq<string>, dates: seq<seq<string>>, n: nat): seq<Job>
    requires n <= |titles|
    decreases n
  {
    if n == 0 then []
    else JobsUpTo(titles, dates, n - 1) + (if Kept(titles, dates, n - 1) then [JobAt(titles, dates, n - 1)] else [])
  }

  /** The whole job list. */
  function CompiledJobs(titles: seq<string>, dates: seq<seq<string>>): seq<Job> {
    JobsUpTo(titles, dates, |titles|)
  }

  /** `compile_jobs`: pair every title with the first two dates of its cell, skipping positions that would raise. */
  method CompileJobs(titles: seq<string>, dates: seq<seq<string>>) returns (jobList: seq<Job>)
    ensures jobList == CompiledJobs(titles, dates)
  {
    jobList := [];
    for i := 0 to |titles|
      invariant jobList == JobsUpTo(titles, dates, i)
    {
      if i < |dates| && |dates[i]| >= 2 {
        jobList := jobList + [Job(titles[i], dates[i][0], dates[i][1])];
      }
    }
  }

  /** The positions kept among 0 .. n-1, in increasing order. */
  ghost function KeptUpTo(titles: seq<string>, dates: seq<seq<string>>, n: nat): seq<nat>
    requires n <= |titles|
    decreases n
  {
    if n == 0 then []
    else KeptUpTo(titles, dates, n - 1) + (if Kept(titles, dates, n - 1) then [n - 1] else [])
  }

  /** Positions are kept in increasing order, and a position is kept exactly when it has two dates. */
  lemma {:induction false} KeptUpToIndices(titles: seq<string>, dates: seq<seq<string>>, n: nat)
    requires n <= |titles|
    ensures var idx := KeptUpTo(titles, dates, n);
      && (forall k :: 0 <= k < |idx| ==> idx[k] < n)
      && (forall k, l :: 0 <= k < l < |idx| ==> idx[k] < idx[l])
      && (forall i :: 0 <= i < n ==> (Kept(titles, dates, i) <==> i in idx))
    decreases n
  {
    if n > 0 {
      KeptUpToIndices(titles, dates, n - 1);
    }
  }

  /** The job list, entry by entry: the k-th job comes from the k-th kept position. */
  lemma {:induction false} JobsUpToByPosition(titles: seq<string>, dates: seq<seq<string>>, n: nat)
    requires n <= |titles|
    ensures var jobs := JobsUpTo(titles, dates, n);
      var idx := KeptUpTo(titles, dates, n);
      && |jobs| == |idx|
      && (forall k :: 0 <= k < |idx| ==>
            Kept(titles, dates, idx[k]) && jobs[k] == Job(titles[idx[k]], dates[idx[k]][0], dates[idx[k]][1]))
    decreases n
  {
    if n > 0 {
      JobsUpToByPosition(titles, dates, n - 1);
      var jobs, idx := JobsUpTo(titles, dates, n), KeptUpTo(titles, dates, n);
      var jobs', idx' := JobsUpTo(titles, dates, n - 1), KeptUpTo(titles, dates, n - 1);
      if Kept(titles, dates, n - 1) {
        assert jobs == jobs' + [JobAt(titles, dates, n - 1)] && idx == idx' + [n - 1];
        assert forall k :: 0 <= k < |idx'| ==> jobs[k] == jobs'[k] && idx[k] == idx'[k];
      } else {
        assert jobs == jobs' && idx == idx';
      }
    }
  }

  /** At most one job per title; exactly one per title when every position has two dates. */
  lemma {:induction false} JobsUpToLength(titles: seq<string>, dates: seq<seq<string>>, n: nat)
    requires n <= |titles|
    ensures |JobsUpTo(titles, dates, n)| <= n
    ensures |JobsUpTo(titles, dates, n)| == n <==> forall i :: 0 <= i < n ==> Kept(titles, dates, i)
    decreases n
  {
    if n > 0 {
      JobsUpToLength(titles, dates, n - 1);
    }
  }

  /** Dates cells beyond the last title are never looked at. */
  lemma {:induction false} JobsUpToIgnoresExtraDates(titles: seq<string>, dates: seq<seq<string>>, more: seq<seq<string>>, n: nat)
    requires n <= |titles| <= |dates|
    ensures JobsUpTo(titles, dates + more, n) == JobsUpTo(titles, dates, n)
    decreases n
  {
    if n > 0 {
      JobsUpToIgnoresExtraDates(titles, dates, more, n - 1);
    }
  }

  /** A title whose cell holds a single date (an office still held, say) yields no job. */
  lemma SingleDateDropped(titles: seq<string>, dates: seq<seq<string>>, i: nat)
    requires i < |titles| && i < |dates| && |dates[i]| == 1
    ensures forall j :: j in CompiledJobs(titles, dates) ==> j.title == titles[i] ==>
              exists i' :: 0 <= i' < |titles| && i' != i && Kept(titles, dates, i') && j == JobAt(titles, dates, i')
  {
    var jobs := CompiledJobs(titles, dates);
    JobsUpToByPosition(titles, dates, |titles|);
    forall j | j in jobs && j.title == titles[i]
      ensures exists i' :: 0 <= i' < |titles| && i' != i && Kept(titles, dates, i') && j == JobAt(titles, dates, i')
    {
      var k :| 0 <= k < |jobs| && jobs[k] == j;
      var idx := KeptUpTo(titles, dates, |titles|);
      assert Kept(titles, dates, idx[k]);
    }
  }

  /** A position without two dates leaves the job list shorter than the title list. */
  lemma DroppedJobShortens(titles: seq<string>, dates: seq<seq<string>>, i: nat)
    requires i < |titles| && !Kept(titles, dates, i)
    ensures |CompiledJobs(titles, dates)| < |titles|
  {
    JobsUpToLength(titles, dates, |titles|);
  }

  /** Jobs take their start and end from the dates lists, so when those hold only dates, so do the jobs. */
  lemma JobsFromDates(titles: seq<string>, dates: seq<seq<string>>)
    requires forall k, l :: 0 <= k < |dates| && 0 <= l < |dates[k]| ==> IsDate(dates[k][l])
    ensures forall j :: j in CompiledJobs(titles, dates) ==> IsDate(j.start) && IsDate(j.end)
  {
    var jobs := CompiledJobs(titles, dates);
    JobsUpToByPosition(titles, dates, |titles|);
    forall j | j in jobs
      ensures IsDate(j.start) && IsDate(j.end)
    {
      var k :| 0 <= k < |jobs| && jobs[k] == j;
      var i := KeptUpTo(titles, dates, |titles|)[k];
      assert IsDate(dates[i][0]) && IsDate(dates[i][1]);
    }
  }

  /** Every job of a parsed page starts and ends with a date. */
  lemma JobsHaveDates(box: Infobox)
    ensures forall j :: j in CompiledJobs(ParseJobs(box), ParseJobsDates(box)) ==> IsDate(j.start) && IsDate(j.end)
  {
    var dates := ParseJobsDates(box);
    ParseJobsDatesAreDates(box);
    JobsFromDates(ParseJobs(box), dates);
  }

  // ---------------------------------------------------------------- header lookups

  /** p occurs in s at index i. */
  predicate OccursAt(s: string, p: string, i: nat) {
    i + |p| <= |s| && s[i..i + |p|] == p
  }

  /** `re.search` of the header pattern: its optional `\s*` on both sides make it a plain substring test. */
  predicate Contains(s: string, p: string) {
    exists i: nat :: i <= |s| && OccursAt(s, p, i)
  }

  /** A header cell whose text mentions the key, such as "Born". */
  predicate IsLabel(c: Cell, key: string) {
    c.tag == "th" && Contains(c.text, key)
  }

  /** Index of the first labelled header among cells[j..]. */
  function FindTh(cells: seq<Cell>, key: string, j: nat): (r: Option<nat>)
    requires j <= |cells|
    ensures r.Some? ==> j <= r.value < |cells| && IsLabel(cells[r.value], key)
    ensures forall i :: j <= i < |cells| && (r.None? || i < r.value) ==> !IsLabel(cells[i], key)
    decreases |cells| - j
  {
    if j == |cells| then None
    else if IsLabel(cells[j], key) then Some(j)
    else FindTh(cells, key, j + 1)
  }

  /** `findNextSibling(name="td")` from index j on: the text of the first data cell. */
  function NextTd(cells: seq<Cell>, j: nat): (r: Option<string>)
    requires j <= |cells|
    ensures r.Some? <==> exists i :: j <= i < |cells| && cells[i].tag == "td"
    ensures r.Some? ==>
              exists i :: && j <= i < |cells| && cells[i].tag == "td" && cells[i].text == r.value
                          && (forall i' :: j <= i' < i ==> cells[i'].tag != "td")
    decreases |cells| - j
  {
    if j == |cells| then None
    else if cells[j].tag == "td" then Some(cells[j].text)
    else NextTd(cells, j + 1)
  }

  /** What `find("th", text=…)` and the `findNextSibling` after it give. */
  datatype Labelled = NoHeader | Header(value: Option<string>)

  /** The first labelled header in document order and the data cell next to it in its row. */
  function FindLabelled(rows: seq<Row>, key: string): (r: Labelled)
    ensures r.NoHeader? ==> forall k :: 0 <= k < |rows| ==> FindTh(rows[k].cells, key, 0).None?
    decreases |rows|
  {
    if rows == [] then NoHeader
    else
      match FindTh(rows[0].cells, key, 0)
      case Some(j) => Header(NextTd(rows[0].cells, j + 1))
      case None => FindLabelled(rows[1..], key)
  }

  /** Row k is the first row holding a labelled header, and v is what follows that header in it. */
  predicate FirstLabelledRow(rows: seq<Row>, key: string, k: nat, v: Option<string>) {
    && k < |rows| && FindTh(rows[k].cells, key, 0).Some?
    && v == NextTd(rows[k].cells, FindTh(rows[k].cells, key, 0).value + 1)
    && (forall k' :: 0 <= k' < k ==> FindTh(rows[k'].cells, key, 0).None?)
  }

  /**
   * A found header is the one of the first row holding a labelled header, and its value is
   * what the sibling lookup gives after it.
   */
  lemma {:induction false} FindLabelledFirstRow(rows: seq<Row>, key: string)
    requires FindLabelled(rows, key).Header?
    ensures exists k: nat :: FirstLabelledRow(rows, key, k, FindLabelled(rows, key).value)
    decreases |rows|
  {
    var v := FindLabelled(rows, key).value;
    if FindTh(rows[0].cells, key, 0).Some? {
      assert FirstLabelledRow(rows, key, 0, v);
    } else {
      var rest := rows[1..];
      assert FindLabelled(rest, key) == FindLabelled(rows, key);
      FindLabelledFirstRow(rest, key);
      var k: nat :| FirstLabelledRow(rest, key, k, v);
      assert rows[k + 1] == rest[k];
      forall k' | 0 <= k' < k + 1
        ensures FindTh(rows[k'].cells, key, 0).None?
      {
        if k' > 0 {
          assert rows[k'] == rest[k' - 1];
        }
      }
      assert FirstLabelledRow(rows, key, k + 1, v);
    }
  }

  /** A header is found exactly when some cell of the infobox is a labelled header. */
  lemma {:induction false} FindLabelledIff(rows: seq<Row>, key: string)
    ensures FindLabelled(rows, key).NoHeader? <==>
              forall i :: 0 <= i < |Cells(rows)| ==> !IsLabel(Cells(rows)[i], key)
    decreases |rows|
  {
    if rows != [] {
      FindLabelledIff(rows[1..], key);
      var head := rows[0].cells;
      assert Cells(rows) == head + Cells(rows[1..]);
      match FindTh(head, key, 0)
      case Some(j) =>
        assert Cells(rows)[j] == head[j];
      case None =>
        forall i | 0 <= i < |Cells(rows)|
          ensures !IsLabel(Cells(rows)[i], key) <==> (i >= |head| ==> !IsLabel(Cells(rows[1..])[i - |head|], key))
        {
          if i >= |head| {
            assert Cells(rows)[i] == Cells(rows[1..])[i - |head|];
          }
        }
        if !FindLabelled(rows, key).NoHeader? {
          var i :| 0 <= i < |Cells(rows[1..])| && IsLabel(Cells(rows[1..])[i], key);
          assert Cells(rows)[i + |head|] == Cells(rows[1..])[i];
        }
    }
  }

  // ---------------------------------------------------------------- parse_name, parse_party, parse_birth_death

  /** `parse_name`: the stripped text of the name element. */
  function ParseName(box: Infobox): (r: Result<string, ParseError>)
    ensures r.Failure? <==> box.nameDiv.None?
    ensures r.Success? ==> r.value == Strip(box.nameDiv.value)
  {
    match box.nameDiv
    case None => Failure(NoName)
    case Some(t) => Success(Strip(t))
  }

  /** Index of the first letter of s at or after i. */
  function FirstLetter(s: string, i: nat): (r: Option<nat>)
    requires i <= |s|
    ensures r.Some? ==> i <= r.value < |s| && IsLetter(s[r.value])
    ensures forall j :: i <= j < |s| && (r.None? || j < r.value) ==> !IsLetter(s[j])
    decreases |s| - i
  {
    if i == |s| then None
    else if IsLetter(s[i]) then Some(i)
    else FirstLetter(s, i + 1)
  }

  /** `re.findall("([A-Za-z]+)", s)[0]`: the first maximal run of letters, None when findall is empty. */
  function FirstWord(s: string): (r: Option<string>)
    ensures r.None? <==> forall j :: 0 <= j < |s| ==> !IsLetter(s[j])
  {
    match FirstLetter(s, 0)
    case None => None
    case Some(i) => Some(s[i..i + Run(s, i, Letters)])
  }

  /** The first word is a non-empty run of letters, preceded by no letter and followed by none. */
  lemma FirstWordIsMaximal(s: string)
    requires FirstWord(s).Some?
    ensures var w := FirstWord(s).value;
      var i := FirstLetter(s, 0).value;
      && |w| >= 1 && i + |w| <= |s| && w == s[i..i + |w|]
      && (forall j :: 0 <= j < |w| ==> IsLetter(w[j]))
      && (forall j :: 0 <= j < i ==> !IsLetter(s[j]))
      && (i + |w| == |s| || !IsLetter(s[i + |w|]))
  {
    var i := FirstLetter(s, 0).value;
    RunMembers(s, i, Letters);
    assert Run(s, i, Letters) >= 1 by {
      assert Run(s, i, Letters) == 1 + Run(s, i + 1, Letters);
    }
  }

  /** `parse_party`: the first word of the cell next to the "Political party" header. */
  function ParseParty(box: Infobox): (r: Result<string, ParseError>)
    ensures r.Failure? ==> r.error == NoPartyCell || r.error == NoPartyName
    ensures r == Failure(NoPartyCell) <==>
              (FindLabelled(box.rows, "Political party").NoHeader? ||
               FindLabelled(box.rows, "Political party").value.None?)
    ensures var h := FindLabelled(box.rows, "Political party");
      r.Success? ==> h.Header? && h.value.Some? && FirstWord(Strip(h.value.value)) == Some(r.value)
  {
    match FindLabelled(box.rows, "Political party")
    case NoHeader => Failure(NoPartyCell)
    case Header(None) => Failure(NoPartyCell)
    case Header(Some(t)) =>
      match FirstWord(Strip(t))
      case None => Failure(NoPartyName)
      case Some(w) => Success(w)
  }

  /** With a party cell present, the parse fails exactly when the stripped cell holds no letter. */
  lemma ParsePartyNeedsLetter(box: Infobox)
    requires FindLabelled(box.rows, "Political party").Header? && FindLabelled(box.rows, "Political party").value.Some?
    ensures var t := Strip(FindLabelled(box.rows, "Political party").value.value);
      ParseParty(box) == Failure(NoPartyName) <==> forall j :: 0 <= j < |t| ==> !IsLetter(t[j])
  {
  }

  /** `findall(date, text.strip())[0]`, None when there is no date. */
  function FirstDate(t: string): (r: Option<string>)
    ensures r.None? <==> ExtractDates(Strip(t)) == []
    ensures r.Some? ==> r.value == ExtractDates(Strip(t))[0]
  {
    var dates := ExtractDates(Strip(t));
    if |dates| == 0 then None else Some(dates[0])
  }

  /** `parse_birth_death`: the first date next to "Born", and the first date next to "Died" when that header exists. */
  function ParseBirthDeath(box: Infobox): (r: Result<(string, Option<string>), ParseError>)
    ensures FindLabelled(box.rows, "Died").NoHeader? ==> r.Success? ==> r.value.1.None?
    ensures !FindLabelled(box.rows, "Died").NoHeader? ==> r.Success? ==> r.value.1.Some?
    ensures var b, d := FindLabelled(box.rows, "Born"), FindLabelled(box.rows, "Died");
      r.Success? <==>
        && b.Header? && b.value.Some? && FirstDate(b.value.value).Some?
        && (d.NoHeader? || (d.value.Some? && FirstDate(d.value.value).Some?))
    ensures var b, d := FindLabelled(box.rows, "Born"), FindLabelled(box.rows, "Died");
      r.Success? ==>
        && b.Header? && b.value.Some? && r.value.0 == FirstDate(b.value.value).value
        && r.value.1 == (if d.NoHeader? then None else FirstDate(d.value.value))
  {
    match FindLabelled(box.rows, "Born")
    case NoHeader => Failure(NoBornCell)
    case Header(None) => Failure(NoBornCell)
    case Header(Some(b)) =>
      match FirstDate(b)
      case None => Failure(NoBornDate)
      case Some(born) =>
        match FindLabelled(box.rows, "Died")
        case NoHeader => Success((born, None))
        case Header(None) => Failure(NoDiedCell)
        case Header(Some(d)) =>
          match FirstDate(d)
          case None => Failure(NoDiedDate)
          case Some(died) => Success((born, Some(died)))
  }

  /** Both dates are dates; a missing "Born" header fails; a "Died" header with no date in its cell fails. */
  lemma ParseBirthDeathDates(box: Infobox)
    ensures var r := ParseBirthDeath(box);
      r.Success? ==> IsDate(r.value.0) && (r.value.1.Some? ==> IsDate(r.value.1.value))
    ensures FindLabelled(box.rows, "Born").NoHeader? ==> ParseBirthDeath(box) == Failure(NoBornCell)
    ensures var d := FindLabelled(box.rows, "Died");
      ParseBirthDeath(box).Success? && d.Header? ==> d.value.Some? && ExtractDates(Strip(d.value.value)) != []
  {
    match FindLabelled(box.rows, "Born")
    case NoHeader =>
    case Header(None) =>
    case Header(Some(b)) =>
      ExtractDatesAreDates(Strip(b));
      match FindLabelled(box.rows, "Died")
      case NoHeader =>
      case Header(None) =>
      case Header(Some(d)) =>
        ExtractDatesAreDates(Strip(d));
  }

  /** `re.findall("^(\d+)", jobs[0]["title"])[0]`: the leading digits of the first job title. */
  function ParseNumber(jobs: seq<Job>): (r: Result<string, ParseError>)
    ensures r.Failure? ==> r.error == NoJobs || r.error == NoNumber
    ensures r == Failure(NoJobs) <==> jobs == []
    ensures r == Failure(NoNumber) <==> jobs != [] && (jobs[0].title == [] || !IsDigit(jobs[0].title[0]))
    ensures r.Success? ==>
              var t := jobs[0].title;
              && 1 <= |r.value| <= |t| && r.value == t[..|r.value|]
              && (forall j :: 0 <= j < |r.value| ==> IsDigit(r.value[j]))
              && (|r.value| == |t| || !IsDigit(t[|r.value|]))
  {
    if jobs == [] then Failure(NoJobs)
    else
      var t := jobs[0].title;
      var n := Run(t, 0, Digits);
      RunMembers(t, 0, Digits);
      if n == 0 then
        assert t != [] ==> !IsDigit(t[0]);
        Failure(NoNumber)
      else
        assert t[..n] == t[0..n];
        Success(t[..n])
  }

  /** The number of "44th President of the United States" is "44". */
  lemma ParseNumberExample(jobs: seq<Job>)
    requires |jobs| >= 1 && jobs[0].title == "44th President of the United States"
    ensures ParseNumber(jobs) == Success("44")
  {
    var t := jobs[0].title;
    RunExact(t, 0, 2, Digits);
    assert t[..2] == "44";
  }

  /** The party word of "Democratic (1992–2001)" is "Democratic": the qualifier is dropped. */
  lemma FirstWordExample(s: string)
    requires s == "Democratic (1992–2001)"
    ensures FirstWord(s) == Some("Democratic")
  {
    RunExact(s, 0, 10, Letters);
    assert FirstLetter(s, 0) == Some(0);
    assert s[0..10] == "Democratic";
  }

  // ---------------------------------------------------------------- the constructor's pipeline

  /**
   * `__init__` followed by `compile_president`: name, jobs, party, birth and death, number,
   * in that order; the first step that raises decides the error.
   */
  function Extract(page: Option<Infobox>): (r: Result<Record, ParseError>)
    ensures r.Success? ==> page.Some? && r.value.jobs == CompiledJobs(ParseJobs(page.value), ParseJobsDates(page.value))
    ensures r.Success? ==> ParseNumber(r.value.jobs) == Success(r.value.number)
    ensures r.Success? ==>
              && ParseName(page.value) == Success(r.value.name)
              && ParseParty(page.value) == Success(r.value.party)
              && ParseBirthDeath(page.value) == Success((r.value.born, r.value.died))
    ensures page.None? ==> r == Failure(NoInfobox)
  {
    if page.None? then Failure(NoInfobox)
    else
      var box := page.value;
      var name :- ParseName(box);
      var jobs := CompiledJobs(ParseJobs(box), ParseJobsDates(box));
      var party :- ParseParty(box);
      var bd :- ParseBirthDeath(box);
      var number :- ParseNumber(jobs);
      Success(Record(number, name, party, bd.0, bd.1, jobs))
  }

  /**
   * The scraper succeeds exactly when every step does, and then every field has its shape:
   * the number is the leading digits of the first title, the party a word, the dates dates.
   */
  lemma ExtractSucceedsIff(box: Infobox)
    ensures var jobs := CompiledJobs(ParseJobs(box), ParseJobsDates(box));
      Extract(Some(box)).Success? <==>
        && box.nameDiv.Some?
        && ParseParty(box).Success?
        && ParseBirthDeath(box).Success?
        && jobs != [] && jobs[0].title != [] && IsDigit(jobs[0].title[0])
    ensures var r := Extract(Some(box));
      r.Success? ==>
        && |r.value.number| >= 1 && (forall j :: 0 <= j < |r.value.number| ==> IsDigit(r.value.number[j]))
        && |r.value.party| >= 1 && (forall j :: 0 <= j < |r.value.party| ==> IsLetter(r.value.party[j]))
        && IsDate(r.value.born) && (r.value.died.Some? ==> IsDate(r.value.died.value))
        && (forall j :: j in r.value.jobs ==> IsDate(j.start) && IsDate(j.end))
  {
    if ParseParty(box).Success? {
      FirstWordIsMaximal(Strip(FindLabelled(box.rows, "Political party").value.value));
    }
    ParseBirthDeathDates(box);
    JobsHaveDates(box);
  }

  /** A missing name hides every later failure. */
  lemma ExtractNameFirst(box: Infobox)
    requires box.nameDiv.None?
    ensures Extract(Some(box)) == Failure(NoName)
  {
  }

  /** With a name, a party failure comes next, before the dates and the number. */
  lemma ExtractPartySecond(box: Infobox)
    requires box.nameDiv.Some? && ParseParty(box).Failure?
    ensures Extract(Some(box)) == Failure(ParseParty(box).error)
  {
  }

  /** With a name and a party, a date failure comes before the number. */
  lemma ExtractDatesThird(box: Infobox)
    requires box.nameDiv.Some? && ParseParty(box).Success? && ParseBirthDeath(box).Failure?
    ensures Extract(Some(box)) == Failure(ParseBirthDeath(box).error)
  {
  }

  /** When every step before it succeeds, the number decides: its error is the scraper's error. */
  lemma ExtractNumberLast(box: Infobox)
    requires box.nameDiv.Some? && ParseParty(box).Success? && ParseBirthDeath(box).Success?
    requires ParseNumber(CompiledJobs(ParseJobs(box), ParseJobsDates(box))).Failure?
    ensures Extract(Some(box)) == Failure(ParseNumber(CompiledJobs(ParseJobs(box), ParseJobsDates(box))).error)
  {
  }

  // ---------------------------------------------------------------- download_image

  /** Largest j in [lo, hi - 3] with "jpg" at j: how far the greedy `.+` can reach. */
  function LastJpg(s: string, lo: nat, hi: nat): (r: Option<nat>)
    requires hi <= |s|
    ensures r.Some? ==> lo <= r.value && r.value + 3 <= hi && OccursAt(s, "jpg", r.value)
    ensures forall j :: lo <= j && j + 3 <= hi && (r.None? || r.value < j) ==> !OccursAt(s, "jpg", j)
    decreases hi
  {
    if hi < lo + 3 then None
    else if OccursAt(s, "jpg", hi - 3) then Some(hi - 3)
    else LastJpg(s, lo, hi - 1)
  }

  /**
   * `upload.+jpg` tried at index i: "upload", then at least one character other than a
   * newline, then "jpg", with `.+` as long as possible. The end of the match, or None.
   */
  function MatchUploadAt(s: string, i: nat): (r: Option<nat>)
    requires i <= |s|
    ensures r.Some? ==> i + 10 <= r.value <= |s| && OccursAt(s, "upload", i) && OccursAt(s, "jpg", r.value - 3)
    ensures r.Some? ==> forall j :: i + 6 <= j < r.value - 3 ==> s[j] != '\n'
  {
    if OccursAt(s, "upload", i) then
      var m := Run(s, i + 6, NotNewline);
      match LastJpg(s, i + 7, i + 6 + m)
      case Some(j) => RunMembers(s, i + 6, NotNewline); Some(j + 3)
      case None => None
    else None
  }

  /** The first match of `upload.+jpg` at or after i: findall's first result. */
  function FirstUpload(s: string, i: nat): (r: Option<Span>)
    requires i <= |s|
    ensures r.Some? ==> i <= r.value.start < r.value.end <= |s|
    decreases |s| - i
  {
    if i == |s| then None
    else
      match MatchUploadAt(s, i)
      case Some(e) => Some(Span(i, e))
      case None => FirstUpload(s, i + 1)
  }

  /** findall's first result is the leftmost index where the pattern matches, and there is none when it matches nowhere. */
  lemma {:induction false} FirstUploadIsLeftmost(s: string, i: nat)
    requires i <= |s|
    ensures var r := FirstUpload(s, i);
      && (r.Some? ==> i <= r.value.start && MatchUploadAt(s, r.value.start) == Some(r.value.end))
      && (forall j :: i <= j <= |s| && (r.None? || j < r.value.start) ==> MatchUploadAt(s, j).None?)
    decreases |s| - i
  {
    if i < |s| && MatchUploadAt(s, i).None? {
      FirstUploadIsLeftmost(s, i + 1);
    }
    if i == |s| {
      assert !OccursAt(s, "upload", i);
    }
  }

  /** Without a newline, `.` matches every character, so `.+` runs to the end of the text. */
  lemma NoNewlineRunsToEnd(s: string, k: nat)
    requires k <= |s| && '\n' !in s
    ensures Run(s, k, NotNewline) == |s| - k
  {
    RunExact(s, k, |s| - k, NotNewline);
  }

  /**
   * On a one-line `src` the URL runs from the first "upload" to the last "jpg": the greedy
   * `.+` swallows every earlier "jpg".
   */
  lemma UploadSpansFirstToLast(s: string)
    requires '\n' !in s && FirstUpload(s, 0).Some?
    ensures var sp := FirstUpload(s, 0).value;
      && OccursAt(s, "upload", sp.start) && (forall i :: 0 <= i < sp.start ==> !OccursAt(s, "upload", i))
      && sp.start + 10 <= sp.end && OccursAt(s, "jpg", sp.end - 3)
      && (forall j :: sp.end - 3 < j ==> !OccursAt(s, "jpg", j))
  {
    var sp := FirstUpload(s, 0).value;
    FirstUploadIsLeftmost(s, 0);
    MatchEndsAtLastJpg(s, sp.start);
    forall i | 0 <= i < sp.start
      ensures !OccursAt(s, "upload", i)
    {
      UploadWithoutMatch(s, i, sp.end - 3);
    }
  }

  /** On a one-line text a match ends at the text's last "jpg". */
  lemma MatchEndsAtLastJpg(s: string, i: nat)
    requires i <= |s| && '\n' !in s && MatchUploadAt(s, i).Some?
    ensures forall j :: MatchUploadAt(s, i).value - 3 < j ==> !OccursAt(s, "jpg", j)
  {
    NoNewlineRunsToEnd(s, i + 6);
  }

  /** On a one-line text, an "upload" with a "jpg" at least one character after it is a match. */
  lemma UploadWithoutMatch(s: string, i: nat, j: nat)
    requires '\n' !in s && i + 7 <= j && OccursAt(s, "jpg", j) && MatchUploadAt(s, i).None?
    ensures !OccursAt(s, "upload", i)
  {
    if i + 6 <= |s| {
      NoNewlineRunsToEnd(s, i + 6);
    }
  }

  /** An occurrence inside s[a..b] seen from the slice. */
  lemma OccursInSlice(s: string, q: string, a: nat, b: nat, k: nat)
    requires a <= k && k + |q| <= b <= |s| && OccursAt(s, q, k)
    ensures OccursAt(s[a..b], q, k - a)
  {
    var inSlice, inText := s[a..b][k - a..k - a + |q|], s[k..k + |q|];
    assert forall x :: 0 <= x < |q| ==> inSlice[x] == inText[x];
    assert inSlice == inText;
  }

  /** An occurrence in u seen from p + u. */
  lemma OccursAfterPrefix(p: string, u: string, q: string, k: nat)
    requires OccursAt(u, q, k)
    ensures OccursAt(p + u, q, |p| + k)
  {
    assert (p + u)[|p| + k..|p| + k + |q|] == u[k..k + |q|];
  }

  /** The text of the first match starts with "upload" and ends with "jpg". */
  lemma UploadSliceShape(src: string)
    requires FirstUpload(src, 0).Some?
    ensures var sp := FirstUpload(src, 0).value;
      var u := src[sp.start..sp.end];
      |u| >= 10 && OccursAt(u, "upload", 0) && OccursAt(u, "jpg", |u| - 3)
  {
    var sp := FirstUpload(src, 0).value;
    FirstUploadIsLeftmost(src, 0);
    assert MatchUploadAt(src, sp.start) == Some(sp.end);
    OccursInSlice(src, "upload", sp.start, sp.end, sp.start);
    OccursInSlice(src, "jpg", sp.start, sp.end, sp.end - 3);
  }

  /** The URL built from the first match starts with "https://upload" and ends with "jpg". */
  lemma UploadUrlShape(src: string)
    requires FirstUpload(src, 0).Some?
    ensures var sp := FirstUpload(src, 0).value;
      var url := "https://" + src[sp.start..sp.end];
      |url| >= 18 && url[..8] == "https://" && OccursAt(url, "upload", 8) && OccursAt(url, "jpg", |url| - 3)
  {
    var sp := FirstUpload(src, 0).value;
    var u := src[sp.start..sp.end];
    UploadSliceShape(src);
    OccursAfterPrefix("https://", u, "upload", 0);
    OccursAfterPrefix("https://", u, "jpg", |u| - 3);
    assert ("https://" + u)[..8] == "https://";
  }

  // ---------------------------------------------------------------- the class

  /** A scraped president: the infobox and the fields `__init__` sets, never changed afterwards. */
  class President {
    const soup: Infobox
    const name: string
    const jobList: seq<Job>
    const party: string
    const born: string
    const died: Option<string>
    const num: string

    /** The fields are what the scraper extracts from the infobox. */
    ghost predicate Valid() {
      Extract(Some(soup)) == Success(Record(num, name, party, born, died, jobList))
    }

    constructor (box: Infobox, rec: Record)
      requires Extract(Some(box)) == Success(rec)
      ensures Valid()
      ensures soup == box && name == rec.name && jobList == rec.jobs && party == rec.party
      ensures born == rec.born && died == rec.died && num == rec.number
    {
      soup := box;
      name := rec.name;
      jobList := rec.jobs;
      party := rec.party;
      born := rec.born;
      died := rec.died;
      num := rec.number;
    }

    /** `President(soup)`: run the parsing steps in order; no object exists when one of them raises. */
    static method Init(page: Option<Infobox>) returns (r: Result<President, ParseError>)
      ensures r.Success? <==> Extract(page).Success?
      ensures r.Failure? ==> r.error == Extract(page).error
      ensures r.Success? ==> fresh(r.value) && r.value.Valid() && r.value.CompilePresident() == Extract(page).value
    {
      if page.None? {
        return Failure(NoInfobox);
      }
      var box := page.value;
      var name :- ParseName(box);
      var jobList := CompileJobs(ParseJobs(box), ParseJobsDates(box));
      var party :- ParseParty(box);
      var bd :- ParseBirthDeath(box);
      var num :- ParseNumber(jobList);
      var p := new President(box, Record(num, name, party, bd.0, bd.1, jobList));
      return Success(p);
    }

    /**
     * `compile_president`: the dictionary of fields. Each entry is the result of its parsing
     * step on the infobox, and has the shape that step guarantees.
     */
    function CompilePresident(): (r: Record)
      requires Valid()
      ensures ParseName(soup) == Success(r.name)
      ensures r.jobs == CompiledJobs(ParseJobs(soup), ParseJobsDates(soup))
      ensures ParseParty(soup) == Success(r.party)
      ensures ParseBirthDeath(soup) == Success((r.born, r.died))
      ensures ParseNumber(r.jobs) == Success(r.number)
      ensures |r.number| >= 1 && (forall j :: 0 <= j < |r.number| ==> IsDigit(r.number[j]))
      ensures |r.party| >= 1 && (forall j :: 0 <= j < |r.party| ==> IsLetter(r.party[j]))
      ensures IsDate(r.born) && (r.died.Some? ==> IsDate(r.died.value))
    {
      ExtractSucceedsIff(soup);
      Record(num, name, party, born, died, jobList)
    }

    /** The URL `download_image` fetches: "https://" and the first `upload.+jpg` of the first image's `src`. */
    function ImageUrl(): (r: Result<string, ParseError>)
      ensures r.Success? ==>
                |r.value| >= 18 && r.value[..8] == "https://" && OccursAt(r.value, "upload", 8) &&
                OccursAt(r.value, "jpg", |r.value| - 3)
      ensures r.Failure? <==> soup.images == [] || "src" !in soup.images[0] || FirstUpload(soup.images[0]["src"], 0).None?
      ensures r.Success? ==>
                var src := soup.images[0]["src"];
                var sp := FirstUpload(src, 0).value;
                r.value == "https://" + src[sp.start..sp.end]
    {
      if soup.images == [] then Failure(NoImage)
      else if "src" !in soup.images[0] then Failure(NoImageSrc)
      else
        var src := soup.images[0]["src"];
        match FirstUpload(src, 0)
        case None => Failure(NoImageUrl)
        case Some(sp) =>
          UploadUrlShape(src);
          var url := "https://" + src[sp.start..sp.end];
          Success(url)
    }
  }
}
