/**
 * The helpers of utils.py: file names and Wikipedia URLs from a president's name,
 * the whitespace cleaner used on job titles, the date extractor, and the row-deletion
 * loop that shrinks a portrait to a target height. Every regular expression is written
 * out as a scanner over the string.
 */
module Utils {
  import opened Wrappers
  import opened PyStr
  import opened FindAll

  // ---------------------------------------------------------------- to_fname, to_url

  /** Lower-casing leaves a non-letter where it is, so the count of '.' does not change. */
  lemma {:induction false} LowerKeepsDots(s: string)
    ensures Count(Lower(s), '.') == Count(s, '.')
    decreases |s|
  {
    if s != [] {
      LowerKeepsDots(s[1..]);
      assert Lower(s)[1..] == Lower(s[1..]);
    }
  }

  /** The stem of a file name: no '.', no space, no upper-case letter, one character per non-dot of the name. */
  lemma FnameStem(name: string)
    ensures var stem := ReplaceChar(RemoveAll(Lower(name), '.'), ' ', '_');
      && |stem| == |name| - Count(name, '.')
      && forall j :: 0 <= j < |stem| ==> stem[j] != '.' && stem[j] != ' ' && !IsUpper(stem[j])
  {
    var cleaned := RemoveAll(Lower(name), '.');
    LowerKeepsDots(name);
    forall j | 0 <= j < |cleaned|
      ensures cleaned[j] != '.' && !IsUpper(cleaned[j])
    {
      assert cleaned[j] in cleaned;
      assert cleaned[j] in Lower(name);
    }
  }

  /** `to_fname`: lower-case the name, drop every '.', turn each space into '_', append the extension. */
  function ToFname(name: string, ext: string): (r: string)
    ensures |r| >= |ext| && r[|r| - |ext|..] == ext
    ensures |r| - |ext| == |name| - Count(name, '.')
    ensures forall j :: 0 <= j < |r| - |ext| ==> r[j] != '.' && r[j] != ' ' && !IsUpper(r[j])
    ensures r[..|r| - |ext|] == ReplaceChar(RemoveAll(Lower(name), '.'), ' ', '_')
  {
    var cleaned := RemoveAll(Lower(name), '.');
    JoinSplit(cleaned, ' ', '_');
    FnameStem(name);
    var stem := Join("_", Split(cleaned, ' '));
    assert (stem + ext)[..|stem|] == stem && (stem + ext)[|stem|..] == ext;
    stem + ext
  }

  const WikiPrefix := "https://en.wikipedia.org/wiki/"

  /** `to_url`: the Wikipedia article URL, each space of the name written as '_'. */
  function ToUrl(name: string): (r: string)
    ensures |r| == |WikiPrefix| + |name|
    ensures r[..|WikiPrefix|] == WikiPrefix
    ensures forall i :: 0 <= i < |name| ==>
              r[|WikiPrefix| + i] == (if name[i] == ' ' then '_' else name[i])
  {
    JoinSplit(name, ' ', '_');
    WikiPrefix + Join("_", Split(name, ' '))
  }

  // ---------------------------------------------------------------- clean_extra_spaces

  /** Length of the greedy match of `(\s\s)+` at index i, or 0 when it does not match there. */
  function PairsMatch(s: string, i: nat): (n: nat)
    requires i <= |s|
    ensures i + n <= |s| && n % 2 == 0
    ensures forall j :: i <= j < i + n ==> IsSpace(s[j])
    decreases |s| - i
  {
    if i + 2 <= |s| && IsSpace(s[i]) && IsSpace(s[i + 1]) then 2 + PairsMatch(s, i + 2) else 0
  }

  /** The match takes the whitespace run at i rounded down to an even length. */
  lemma {:induction false} PairsMatchIsEvenRun(s: string, i: nat)
    requires i <= |s|
    ensures Run(s, i, Spaces) % 2 == 0 ==> PairsMatch(s, i) == Run(s, i, Spaces)
    ensures Run(s, i, Spaces) % 2 == 1 ==> PairsMatch(s, i) == Run(s, i, Spaces) - 1
    decreases |s| - i
  {
    if i + 2 <= |s| && IsSpace(s[i]) && IsSpace(s[i + 1]) {
      PairsMatchIsEvenRun(s, i + 2);
      RunSkip(s, i, 2, Spaces);
    }
  }

  /** `re.sub("(\s\s)+", "", s[i..])`: scan left to right, drop each match, copy every other character. */
  function SubPairs(s: string, i: nat): string
    requires i <= |s|
    decreases |s| - i
  {
    if i == |s| then []
    else
      var n := PairsMatch(s, i);
      if n > 0 then SubPairs(s, i + n) else [s[i]] + SubPairs(s, i + 1)
  }

  /** The substitution only deletes: its result is never longer than the text it scans. */
  lemma {:induction false} SubPairsNoLonger(s: string, i: nat)
    requires i <= |s|
    ensures |SubPairs(s, i)| <= |s| - i
    decreases |s| - i
  {
    if i < |s| {
      var n := PairsMatch(s, i);
      if n > 0 {
        SubPairsNoLonger(s, i + n);
      } else {
        SubPairsNoLonger(s, i + 1);
      }
    }
  }

  /**
   * The substitution read run by run: a maximal whitespace run of odd length becomes its
   * last character, one of even length disappears, every other character stays.
   */
  function CollapseRuns(s: string, i: nat): string
    requires i <= |s|
    decreases |s| - i
  {
    if i == |s| then []
    else if !IsSpace(s[i]) then [s[i]] + CollapseRuns(s, i + 1)
    else
      var k := Run(s, i, Spaces);
      (if k % 2 == 1 then [s[i + k - 1]] else []) + CollapseRuns(s, i + k)
  }

  /** An odd whitespace run: after the pairs are dropped its last character is copied. */
  lemma SubPairsOddRun(s: string, i: nat)
    requires i < |s| && IsSpace(s[i]) && Run(s, i, Spaces) % 2 == 1
    ensures SubPairs(s, i) == [s[i + Run(s, i, Spaces) - 1]] + SubPairs(s, i + Run(s, i, Spaces))
  {
    var k := Run(s, i, Spaces);
    var j := i + k - 1;
    PairsMatchIsEvenRun(s, i);
    assert SubPairs(s, i) == SubPairs(s, j) by {
      if k > 1 {
        assert PairsMatch(s, i) == k - 1;
      }
    }
    assert PairsMatch(s, j) == 0;
  }

  /** An even whitespace run is dropped entirely. */
  lemma SubPairsEvenRun(s: string, i: nat)
    requires i < |s| && IsSpace(s[i]) && Run(s, i, Spaces) % 2 == 0
    ensures SubPairs(s, i) == SubPairs(s, i + Run(s, i, Spaces))
  {
    PairsMatchIsEvenRun(s, i);
  }

  /** Outside a whitespace run both readings copy the character. */
  lemma SubPairsCopiesNonSpace(s: string, i: nat)
    requires i < |s| && !IsSpace(s[i])
    ensures SubPairs(s, i) == [s[i]] + SubPairs(s, i + 1)
    ensures CollapseRuns(s, i) == [s[i]] + CollapseRuns(s, i + 1)
  {
    assert PairsMatch(s, i) == 0;
  }

  /** The scanner and the run-by-run reading agree on every input. */
  lemma {:induction false} SubPairsCollapsesRuns(s: string, i: nat)
    requires i <= |s|
    ensures SubPairs(s, i) == CollapseRuns(s, i)
    decreases |s| - i
  {
    if i < |s| {
      if !IsSpace(s[i]) {
        SubPairsCopiesNonSpace(s, i);
        SubPairsCollapsesRuns(s, i + 1);
      } else {
        var k := Run(s, i, Spaces);
        CollapseRunsAtRun(s, i);
        SubPairsCollapsesRuns(s, i + k);
        if k % 2 == 1 {
          SubPairsOddRun(s, i);
        } else {
          SubPairsEvenRun(s, i);
          assert [] + CollapseRuns(s, i + k) == CollapseRuns(s, i + k);
        }
      }
    }
  }

  /** The run-by-run reading leaves no two whitespace characters side by side, and keeps a non-whitespace first character. */
  lemma {:induction false} CollapseRunsNoAdjacentSpaces(s: string, i: nat)
    requires i <= |s|
    ensures NoAdjacentSpaces(CollapseRuns(s, i))
    ensures i < |s| && !IsSpace(s[i]) ==> CollapseRuns(s, i) != [] && CollapseRuns(s, i)[0] == s[i]
    decreases |s| - i
  {
    if i < |s| {
      if !IsSpace(s[i]) {
        CollapseRunsNoAdjacentSpaces(s, i + 1);
        NoAdjacentSpacesConcat([s[i]], CollapseRuns(s, i + 1));
      } else {
        var k := Run(s, i, Spaces);
        var head: string := if k % 2 == 1 then [s[i + k - 1]] else [];
        CollapseRunsNoAdjacentSpaces(s, i + k);
        assert CollapseRuns(s, i) == head + CollapseRuns(s, i + k);
        NoAdjacentSpacesConcat(head, CollapseRuns(s, i + k));
      }
    }
  }

  /** Skipping whitespace does not change the non-whitespace characters that follow. */
  lemma {:induction false} NonSpaceSkipSpaces(s: string, i: nat, k: nat)
    requires i + k <= |s|
    requires forall j :: i <= j < i + k ==> IsSpace(s[j])
    ensures NonSpace(s[i..]) == NonSpace(s[i + k..])
    decreases k
  {
    if k > 0 {
      assert s[i..][1..] == s[i + 1..];
      NonSpaceSkipSpaces(s, i + 1, k - 1);
    }
  }

  lemma NonSpaceConsSpace(c: char, rest: string)
    requires IsSpace(c)
    ensures NonSpace([c] + rest) == NonSpace(rest)
  {
    assert ([c] + rest)[1..] == rest;
  }

  /** At a whitespace run the reading emits the run's last character when the run is odd, nothing when even. */
  lemma CollapseRunsAtRun(s: string, i: nat)
    requires i < |s| && IsSpace(s[i])
    ensures var k := Run(s, i, Spaces);
      && k >= 1 && IsSpace(s[i + k - 1])
      && CollapseRuns(s, i) == (if k % 2 == 1 then [s[i + k - 1]] else []) + CollapseRuns(s, i + k)
  {
    var k := Run(s, i, Spaces);
    assert k == 1 + Run(s, i + 1, Spaces);
    RunMembers(s, i, Spaces);
    assert IsSpace(s[i + k - 1]);
  }

  /** What a whitespace run leaves behind holds no non-whitespace character. */
  lemma CollapseRunsDropsRun(s: string, i: nat)
    requires i < |s| && IsSpace(s[i])
    ensures var k := Run(s, i, Spaces);
      k >= 1 && NonSpace(CollapseRuns(s, i)) == NonSpace(CollapseRuns(s, i + k))
  {
    var k := Run(s, i, Spaces);
    var rest := CollapseRuns(s, i + k);
    CollapseRunsAtRun(s, i);
    if k % 2 == 1 {
      NonSpaceConsSpace(s[i + k - 1], rest);
    } else {
      assert [] + rest == rest;
    }
  }

  /** The run-by-run reading keeps every non-whitespace character, in order. */
  lemma {:induction false} CollapseRunsKeepsNonSpace(s: string, i: nat)
    requires i <= |s|
    ensures NonSpace(CollapseRuns(s, i)) == NonSpace(s[i..])
    decreases |s| - i
  {
    if i < |s| {
      if !IsSpace(s[i]) {
        CollapseRunsKeepsNonSpace(s, i + 1);
        assert CollapseRuns(s, i) == [s[i]] + CollapseRuns(s, i + 1);
        NonSpaceConcat([s[i]], CollapseRuns(s, i + 1));
        assert s[i..][1..] == s[i + 1..];
      } else {
        var k := Run(s, i, Spaces);
        CollapseRunsDropsRun(s, i);
        CollapseRunsKeepsNonSpace(s, i + k);
        RunMembers(s, i, Spaces);
        NonSpaceSkipSpaces(s, i, k);
      }
    }
  }

  /** With no neighbouring whitespace every run has length one, so nothing changes. */
  lemma {:induction false} CollapseRunsNoop(s: string, i: nat)
    requires i <= |s| && NoAdjacentSpaces(s)
    ensures CollapseRuns(s, i) == s[i..]
    decreases |s| - i
  {
    if i < |s| {
      CollapseRunsNoop(s, i + 1);
      assert s[i..] == [s[i]] + s[i + 1..];
      if IsSpace(s[i]) {
        assert Run(s, i + 1, Spaces) == 0;
      }
    }
  }

  /** `clean_extra_spaces`: remove whitespace in pairs, then strip. */
  function CleanExtraSpaces(s: string): (r: string)
    ensures NoAdjacentSpaces(r)
    ensures r == [] || (!IsSpace(r[0]) && !IsSpace(r[|r| - 1]))
    ensures NonSpace(r) == NonSpace(s)
  {
    var t := SubPairs(s, 0);
    SubPairsCollapsesRuns(s, 0);
    CollapseRunsNoAdjacentSpaces(s, 0);
    CollapseRunsKeepsNonSpace(s, 0);
    assert s[0..] == s;
    StripKeepsNoAdjacentSpaces(t);
    StripKeepsNonSpace(t);
    Strip(t)
  }

  /** Before the strip, the cleaner is exactly the run-by-run rewrite. */
  lemma CleanExtraSpacesByRuns(s: string)
    ensures CleanExtraSpaces(s) == Strip(CollapseRuns(s, 0))
  {
    SubPairsCollapsesRuns(s, 0);
  }

  /** Cleaning a cleaned string changes nothing. */
  lemma CleanExtraSpacesIdempotent(s: string)
    ensures CleanExtraSpaces(CleanExtraSpaces(s)) == CleanExtraSpaces(s)
  {
    var r := CleanExtraSpaces(s);
    SubPairsCollapsesRuns(r, 0);
    CollapseRunsNoop(r, 0);
    assert r[0..] == r;
    StripNoop(r);
  }

  // ---------------------------------------------------------------- extract_dates

  /** t is `[A-Za-z]{l}\s\d{d},\s\d{4}`. */
  ghost predicate IsDateWith(t: string, l: nat, d: nat) {
    && 1 <= l && 1 <= d && |t| == l + d + 7
    && (forall j :: 0 <= j < l ==> IsLetter(t[j]))
    && IsSpace(t[l])
    && (forall j :: l < j <= l + d ==> IsDigit(t[j]))
    && t[l + d + 1] == ','
    && IsSpace(t[l + d + 2])
    && (forall j :: l + d + 3 <= j < |t| ==> IsDigit(t[j]))
  }

  /** t is in the language of `[A-Za-z]+\s\d+,\s\d{4}`. */
  ghost predicate IsDate(t: string) {
    exists l: nat, d: nat :: IsDateWith(t, l, d)
  }

  lemma DateShape(t: string)
    requires IsDate(t)
    ensures |t| >= 9 && ',' in t && IsLetter(t[0]) && IsDigit(t[|t| - 1])
  {
    var l: nat, d: nat :| IsDateWith(t, l, d);
  }

  /**
   * Where `[A-Za-z]+\s\d+,\s\d{4}` matches at index i: the end of the match, or None.
   * Backtracking never helps: a letter or digit given back would stand where whitespace
   * or ',' is required, so the greedy runs decide the match.
   */
  function MatchDateAt(s: string, i: nat): (m: Option<nat>)
    requires i <= |s|
    ensures m.Some? ==> i + 9 <= m.value <= |s|
  {
    var l := Run(s, i, Letters);
    var p := i + l;
    if l == 0 || p == |s| || !IsSpace(s[p]) then None
    else
      var d := Run(s, p + 1, Digits);
      var q := p + 1 + d;
      if d == 0 || q + 6 > |s| || s[q] != ',' || !IsSpace(s[q + 1]) || Run(s, q + 2, Digits) < 4 then None
      else Some(q + 6)
  }

  /** What the scanner matches is date-shaped. */
  lemma MatchDateAtIsDate(s: string, i: nat)
    requires i <= |s| && MatchDateAt(s, i).Some?
    ensures IsDate(s[i..MatchDateAt(s, i).value])
  {
    var l := Run(s, i, Letters);
    var d := Run(s, i + l + 1, Digits);
    RunMembers(s, i, Letters);
    RunMembers(s, i + l + 1, Digits);
    RunMembers(s, i + l + d + 3, Digits);
    assert IsDateWith(s[i..MatchDateAt(s, i).value], l, d);
  }

  lemma {:induction false} RunAtLeast(s: string, i: nat, m: nat, cls: CharClass)
    requires i + m <= |s|
    requires forall j :: i <= j < i + m ==> cls.Has(s[j])
    ensures Run(s, i, cls) >= m
    decreases m
  {
    if m > 0 {
      RunAtLeast(s, i + 1, m - 1, cls);
    }
  }

  /** A run that stops where the class stops has exactly that length. */
  lemma {:induction false} RunExact(s: string, i: nat, m: nat, cls: CharClass)
    requires i + m <= |s|
    requires forall j :: i <= j < i + m ==> cls.Has(s[j])
    requires i + m == |s| || !cls.Has(s[i + m])
    ensures Run(s, i, cls) == m
    decreases m
  {
    if m > 0 {
      RunExact(s, i + 1, m - 1, cls);
    }
  }

  /** The parts of a date seen in the text around it, as the scanner reads them. */
  predicate DatePartsAt(s: string, i: nat, l: nat, d: nat) {
    && 1 <= l && 1 <= d && i + l + d + 7 <= |s|
    && (forall j :: i <= j < i + l ==> Letters.Has(s[j]))
    && IsSpace(s[i + l]) && !Letters.Has(s[i + l])
    && (forall j :: i + l + 1 <= j < i + l + 1 + d ==> Digits.Has(s[j]))
    && s[i + l + 1 + d] == ',' && !Digits.Has(s[i + l + 1 + d])
    && IsSpace(s[i + l + d + 2])
    && (forall j :: i + l + d + 3 <= j < i + l + d + 7 ==> Digits.Has(s[j]))
  }

  lemma DateWithInText(s: string, i: nat, e: nat, l: nat, d: nat)
    requires i <= e <= |s| && IsDateWith(s[i..e], l, d)
    ensures e == i + l + d + 7 && DatePartsAt(s, i, l, d)
  {
    var t := s[i..e];
    assert forall j :: i <= j < e ==> s[j] == t[j - i];
  }

  /** The scanner reads a date's parts as its greedy runs. */
  lemma MatchDateParts(s: string, i: nat, l: nat, d: nat)
    requires DatePartsAt(s, i, l, d)
    ensures MatchDateAt(s, i) == Some(i + l + d + 7)
  {
    RunExact(s, i, l, Letters);
    RunExact(s, i + l + 1, d, Digits);
    RunAtLeast(s, i + l + d + 3, 4, Digits);
  }

  /** A date-shaped text at i is exactly what the scanner matches there. */
  lemma DateIsMatched(s: string, i: nat, e: nat)
    requires i <= e <= |s| && IsDate(s[i..e])
    ensures MatchDateAt(s, i) == Some(e)
  {
    var l: nat, d: nat :| IsDateWith(s[i..e], l, d);
    DateWithInText(s, i, e, l, d);
    MatchDateParts(s, i, l, d);
  }

  /** The scanner matches at i up to e exactly when s[i..e] is a date: the pattern has one match per start. */
  lemma MatchDateAtIff(s: string, i: nat, e: nat)
    requires i <= e <= |s|
    ensures MatchDateAt(s, i) == Some(e) <==> IsDate(s[i..e])
  {
    if MatchDateAt(s, i) == Some(e) {
      MatchDateAtIsDate(s, i);
    }
    if IsDate(s[i..e]) {
      DateIsMatched(s, i, e);
    }
  }

  /** The date pattern tried at every index of s from j on; entry x is the verdict at j + x. */
  function DateTableFrom(s: string, j: nat): (m: seq<Option<nat>>)
    requires j <= |s|
    ensures |m| == |s| - j
    ensures forall x :: 0 <= x < |m| && m[x].Some? ==> j + x < m[x].value <= |s|
    decreases |s| - j
  {
    if j == |s| then [] else [MatchDateAt(s, j)] + DateTableFrom(s, j + 1)
  }

  /** The date pattern tried at every index of s. */
  function DateTable(s: string): (m: seq<Option<nat>>)
    ensures |m| == |s| && IsMatchTable(m)
  {
    DateTableFrom(s, 0)
  }

  lemma {:induction false} DateTableFromAt(s: string, j: nat, x: nat)
    requires j + x < |s|
    ensures DateTableFrom(s, j)[x] == MatchDateAt(s, j + x)
    decreases x
  {
    if x > 0 {
      DateTableFromAt(s, j + 1, x - 1);
      assert DateTableFrom(s, j)[x] == DateTableFrom(s, j + 1)[x - 1];
    }
  }

  /** The table entry at j is the scanner's verdict at j. */
  lemma DateTableAt(s: string, j: nat)
    requires j < |s|
    ensures DateTable(s)[j] == MatchDateAt(s, j)
  {
    DateTableFromAt(s, 0, j);
  }

  /** `extract_dates`: the text of every match findall reports, left to right. */
  function ExtractDates(s: string): (dates: seq<string>)
    ensures |dates| == |Scan(DateTable(s), 0)|
  {
    var spans := Scan(DateTable(s), 0);
    seq(|spans|, k requires 0 <= k < |spans| => s[spans[k].start..spans[k].end])
  }

  /** Every text extract_dates returns is date-shaped, hence at least nine characters long. */
  lemma ExtractDatesAreDates(s: string)
    ensures forall k :: 0 <= k < |ExtractDates(s)| ==> IsDate(ExtractDates(s)[k]) && |ExtractDates(s)[k]| >= 9
  {
    var spans := Scan(DateTable(s), 0);
    forall k | 0 <= k < |spans|
      ensures IsDate(ExtractDates(s)[k]) && |ExtractDates(s)[k]| >= 9
    {
      var t := s[spans[k].start..spans[k].end];
      assert ExtractDates(s)[k] == t;
      DateTableAt(s, spans[k].start);
      MatchDateAtIsDate(s, spans[k].start);
      DateShape(t);
    }
  }

  /** A letter just before a match extends the match to the left. */
  lemma MatchExtendsLeft(s: string, a: nat)
    requires 0 < a <= |s| && IsLetter(s[a - 1]) && MatchDateAt(s, a).Some?
    ensures MatchDateAt(s, a - 1) == MatchDateAt(s, a)
  {
    assert Run(s, a - 1, Letters) == 1 + Run(s, a, Letters);
  }

  /** Leftmost matching: every index where the date pattern matches lies inside a reported span. */
  lemma ExtractDatesMissesNothing(s: string)
    ensures forall j :: 0 <= j < |s| && MatchDateAt(s, j).Some? ==> Covered(Scan(DateTable(s), 0), j)
  {
    ScanLeftmost(DateTable(s), 0);
    forall j | 0 <= j < |s| && MatchDateAt(s, j).Some?
      ensures Covered(Scan(DateTable(s), 0), j)
    {
      DateTableAt(s, j);
    }
  }

  /** A date match ends with a year digit. */
  lemma MatchEndsWithDigit(s: string, i: nat)
    requires i <= |s| && MatchDateAt(s, i).Some?
    ensures IsDigit(s[MatchDateAt(s, i).value - 1])
  {
    var l := Run(s, i, Letters);
    var d := Run(s, i + l + 1, Digits);
    RunMembers(s, i + l + d + 3, Digits);
  }

  /** MatchExtendsLeft and MatchEndsWithDigit, read through the table. */
  lemma DateTableFacts(s: string, a: nat)
    requires a < |s| && DateTable(s)[a].Some?
    ensures IsDigit(s[DateTable(s)[a].value - 1])
    ensures a > 0 && IsLetter(s[a - 1]) ==> DateTable(s)[a - 1] == DateTable(s)[a]
  {
    DateTableAt(s, a);
    MatchEndsWithDigit(s, a);
    if a > 0 && IsLetter(s[a - 1]) {
      DateTableAt(s, a - 1);
      MatchExtendsLeft(s, a);
    }
  }

  /** The span of index k starts at the beginning of its run of letters. */
  lemma DateSpanStartsWord(s: string, k: nat)
    requires k < |Scan(DateTable(s), 0)|
    ensures var a := Scan(DateTable(s), 0)[k].start;
      a == 0 || !IsLetter(s[a - 1])
  {
    var a := Scan(DateTable(s), 0)[k].start;
    if a > 0 && IsLetter(s[a - 1]) {
      DateTableFacts(s, a);
      var p := ScanPredecessor(DateTable(s), 0, k);
      DateTableFacts(s, p);
    }
  }

  /** Each reported date starts at the beginning of its run of letters. */
  lemma ExtractDatesStartAtWords(s: string)
    ensures var spans := Scan(DateTable(s), 0);
      forall k :: 0 <= k < |spans| ==> spans[k].start == 0 || !IsLetter(s[spans[k].start - 1])
  {
    var spans := Scan(DateTable(s), 0);
    forall k | 0 <= k < |spans|
      ensures spans[k].start == 0 || !IsLetter(s[spans[k].start - 1])
    {
      DateSpanStartsWord(s, k);
    }
  }

  /**
   * findall semantics of extract_dates: the results are the texts of ordered, non-overlapping
   * matches of the pattern, and no match is missed outside them.
   */
  lemma ExtractDatesAreLeftmostMatches(s: string)
    ensures var spans := Scan(DateTable(s), 0);
      && |ExtractDates(s)| == |spans|
      && (forall k :: 0 <= k < |spans| ==>
            && spans[k].start < spans[k].end <= |s|
            && ExtractDates(s)[k] == s[spans[k].start..spans[k].end]
            && MatchDateAt(s, spans[k].start) == Some(spans[k].end))
      && (forall k, l :: 0 <= k < l < |spans| ==> spans[k].end <= spans[l].start)
      && (forall j :: 0 <= j < |s| && MatchDateAt(s, j).Some? ==> Covered(spans, j))
  {
    var spans := Scan(DateTable(s), 0);
    ExtractDatesMissesNothing(s);
    forall k | 0 <= k < |spans|
      ensures MatchDateAt(s, spans[k].start) == Some(spans[k].end)
    {
      DateTableAt(s, spans[k].start);
    }
  }

  /** Every date contains a comma, so a text without one yields no dates. */
  lemma ExtractDatesNeedsComma(s: string)
    requires ',' !in s
    ensures ExtractDates(s) == []
  {
    var spans := Scan(DateTable(s), 0);
    if spans != [] {
      ExtractDatesAreDates(s);
      DateShape(ExtractDates(s)[0]);
    }
  }

  /** The pattern has no end anchor: a fifth year digit is left behind. */
  lemma ExtractDatesUnanchored(s: string)
    requires s == "January 1, 20201"
    ensures ExtractDates(s) == ["January 1, 2020"]
  {
    var m := DateTable(s);
    DateTableAt(s, 15);
    assert Run(s, 15, Letters) == 0;
    DateTableAt(s, 0);
    RunExact(s, 0, 7, Letters);
    RunExact(s, 8, 1, Digits);
    RunAtLeast(s, 11, 4, Digits);
    assert m[0] == Some(15);
    assert Scan(m, 15) == [];
    assert Scan(m, 0) == [Span(0, 15)];
    assert ExtractDates(s)[0] == s[0..15] == "January 1, 2020";
  }

  // ---------------------------------------------------------------- resize

  datatype ResizeError = NoRowToDelete  // np.delete of the last row of an array that has none

  /** What the row deletion amounts to: the slice `pixels[:targetHeight]`, the first rows kept unchanged. */
  function Crop<P>(pixels: seq<seq<P>>, targetHeight: nat): (r: seq<seq<P>>)
    ensures |r| == if |pixels| > targetHeight then targetHeight else |pixels|
    ensures forall i :: 0 <= i < |r| ==> r[i] == pixels[i]
  {
    if |pixels| > targetHeight then pixels[..targetHeight] else pixels
  }

  /**
   * The loop of `resize` on the decoded pixel array (a sequence of rows): delete the last row
   * `height - targetHeight` times. A negative target asks for more deletions than there are rows.
   */
  method ResizeRows<P>(pixels: seq<seq<P>>, targetHeight: int) returns (r: Result<seq<seq<P>>, ResizeError>)
    ensures targetHeight >= 0 ==> r == Success(Crop(pixels, targetHeight))
    ensures targetHeight < 0 ==> r == Failure(NoRowToDelete)
  {
    var arr := pixels;
    var height := |arr|;
    var over := height - targetHeight;
    var counter := 0;
    while counter < over
      invariant 0 <= counter <= height
      invariant counter <= if over > 0 then over else 0
      invariant arr == pixels[..height - counter]
    {
      if |arr| == 0 {
        return Failure(NoRowToDelete);
      }
      arr := arr[..|arr| - 1];
      counter := counter + 1;
    }
    return Success(arr);
  }
}
