/**
 * The pieces of Python's string machinery that the scraper relies on, restricted to ASCII:
 * the regex classes `\s`, `\d` and `[A-Za-z]`, `str.lower`, `str.strip`, `str.split(" ")`
 * and `str.join`.
 */
module PyStr {

  /** `\s` and `str.isspace()` on ASCII: space, \t \n \v \f \r and the separators 0x1C-0x1F. */
  predicate IsSpace(c: char) {
    c == ' ' || ('\t' <= c <= '\r') || ('\U{1C}' <= c <= '\U{1F}')
  }

  /** `\d` on ASCII. */
  predicate IsDigit(c: char) { '0' <= c <= '9' }

  /** `[A-Za-z]`. */
  predicate IsLetter(c: char) { 'A' <= c <= 'Z' || 'a' <= c <= 'z' }

  predicate IsUpper(c: char) { 'A' <= c <= 'Z' }

  /** A character class that a regex repeats greedily. */
  datatype CharClass = Letters | Digits | Spaces | NotNewline {
    predicate Has(c: char) {
      match this
      case Letters => IsLetter(c)
      case Digits => IsDigit(c)
      case Spaces => IsSpace(c)
      case NotNewline => c != '\n'  // `.` without DOTALL
    }
  }

  /** How far a greedy `cls*` reaches from index i: the maximal run of class members. */
  function Run(s: string, i: nat, cls: CharClass): (n: nat)
    requires i <= |s|
    ensures i + n <= |s|
    ensures i + n == |s| || !cls.Has(s[i + n])
    decreases |s| - i
  {
    if i < |s| && cls.Has(s[i]) then 1 + Run(s, i + 1, cls) else 0
  }

  /** Every character of the run belongs to the class. */
  lemma {:induction false} RunMembers(s: string, i: nat, cls: CharClass)
    requires i <= |s|
    ensures forall j :: i <= j < i + Run(s, i, cls) ==> cls.Has(s[j])
    decreases |s| - i
  {
    if i < |s| && cls.Has(s[i]) {
      RunMembers(s, i + 1, cls);
    }
  }

  /** Cutting a run after m of its characters leaves the rest of the run. */
  lemma {:induction false} RunSkip(s: string, i: nat, m: nat, cls: CharClass)
    requires i <= |s| && m <= Run(s, i, cls)
    ensures Run(s, i, cls) == m + Run(s, i + m, cls)
    decreases m
  {
    if m > 0 {
      RunSkip(s, i + 1, m - 1, cls);
    }
  }

  // ---------------------------------------------------------------- str.lower

  /** `str.lower` on one character (ASCII only). */
  function LowerChar(c: char): (d: char)
    ensures !IsUpper(d)
    ensures !IsUpper(c) ==> d == c
    ensures IsLetter(c) <==> IsLetter(d)
  {
    if IsUpper(c) then (c as int + 32) as char else c
  }

  /** `str.lower`. */
  function Lower(s: string): (r: string)
    ensures |r| == |s|
    ensures forall i :: 0 <= i < |s| ==> r[i] == LowerChar(s[i])
  {
    if s == [] then [] else [LowerChar(s[0])] + Lower(s[1..])
  }

  // ---------------------------------------------------------------- str.strip

  /** `str.lstrip()`: drops the leading whitespace, keeps a suffix. */
  function TrimStart(s: string): (r: string)
    ensures |r| <= |s| && r == s[|s| - |r|..]
    ensures forall j :: 0 <= j < |s| - |r| ==> IsSpace(s[j])
    ensures r == [] || !IsSpace(r[0])
  {
    if s != [] && IsSpace(s[0]) then TrimStart(s[1..]) else s
  }

  /** `str.rstrip()`: drops the trailing whitespace, keeps a prefix. */
  function TrimEnd(s: string): (r: string)
    ensures |r| <= |s| && r == s[..|r|]
    ensures forall j :: |r| <= j < |s| ==> IsSpace(s[j])
    ensures r == [] || !IsSpace(r[|r| - 1])
  {
    if s != [] && IsSpace(s[|s| - 1]) then TrimEnd(s[..|s| - 1]) else s
  }

  /** `str.strip()`: a slice of s with no whitespace at either end. */
  function Strip(s: string): (r: string)
    ensures |r| <= |s|
    ensures r == [] || (!IsSpace(r[0]) && !IsSpace(r[|r| - 1]))
  {
    TrimEnd(TrimStart(s))
  }

  /** Strip cuts only whitespace: it returns the slice s[a..a+|Strip(s)|] and everything outside it is whitespace. */
  lemma StripSlice(s: string) returns (a: nat)
    ensures a + |Strip(s)| <= |s| && Strip(s) == s[a..a + |Strip(s)|]
    ensures forall j :: 0 <= j < a ==> IsSpace(s[j])
    ensures forall j :: a + |Strip(s)| <= j < |s| ==> IsSpace(s[j])
  {
    var t := TrimStart(s);
    a := |s| - |t|;
    var r := TrimEnd(t);
    assert Strip(s) == r;
    assert t == s[a..];
    assert r == s[a..a + |r|] by {
      assert r == t[..|r|];
      assert s[a..][..|r|] == s[a..a + |r|];
    }
    forall j | a + |r| <= j < |s|
      ensures IsSpace(s[j])
    {
      assert s[j] == t[j - a];
    }
  }

  /** Strip leaves a string with no whitespace at either end as it is. */
  lemma StripNoop(s: string)
    requires s == [] || (!IsSpace(s[0]) && !IsSpace(s[|s| - 1]))
    ensures Strip(s) == s
  {
  }

  // ---------------------------------------------------------------- whitespace structure

  /** The characters of s that are not whitespace, in order. */
  function NonSpace(s: string): string {
    if s == [] then [] else (if IsSpace(s[0]) then [] else [s[0]]) + NonSpace(s[1..])
  }

  lemma {:induction false} NonSpaceConcat(a: string, b: string)
    ensures NonSpace(a + b) == NonSpace(a) + NonSpace(b)
    decreases |a|
  {
    if a == [] {
      assert a + b == b;
    } else {
      assert (a + b)[0] == a[0];
      assert (a + b)[1..] == a[1..] + b;
      NonSpaceConcat(a[1..], b);
    }
  }

  /** A string made only of whitespace has no non-whitespace characters. */
  lemma {:induction false} NonSpaceOfSpaces(s: string)
    requires forall j :: 0 <= j < |s| ==> IsSpace(s[j])
    ensures NonSpace(s) == []
    decreases |s|
  {
    if s != [] {
      NonSpaceOfSpaces(s[1..]);
    }
  }

  lemma {:induction false} TrimStartKeepsNonSpace(s: string)
    ensures NonSpace(TrimStart(s)) == NonSpace(s)
    decreases |s|
  {
    if s != [] && IsSpace(s[0]) {
      TrimStartKeepsNonSpace(s[1..]);
    }
  }

  lemma {:induction false} TrimEndKeepsNonSpace(s: string)
    ensures NonSpace(TrimEnd(s)) == NonSpace(s)
    decreases |s|
  {
    if s != [] && IsSpace(s[|s| - 1]) {
      var init := s[..|s| - 1];
      TrimEndKeepsNonSpace(init);
      assert s == init + [s[|s| - 1]];
      NonSpaceConcat(init, [s[|s| - 1]]);
    }
  }

  /** Strip removes whitespace only, so every other character survives, in order. */
  lemma StripKeepsNonSpace(s: string)
    ensures NonSpace(Strip(s)) == NonSpace(s)
  {
    TrimStartKeepsNonSpace(s);
    TrimEndKeepsNonSpace(TrimStart(s));
  }

  /** No two neighbouring characters are both whitespace. */
  predicate NoAdjacentSpaces(s: string) {
    forall j :: 0 <= j < |s| - 1 ==> !(IsSpace(s[j]) && IsSpace(s[j + 1]))
  }

  /** Strip returns a slice, so it cannot create neighbouring whitespace. */
  lemma StripKeepsNoAdjacentSpaces(s: string)
    requires NoAdjacentSpaces(s)
    ensures NoAdjacentSpaces(Strip(s))
  {
    var a := StripSlice(s);
    var r := Strip(s);
    assert forall j :: 0 <= j < |r| ==> r[j] == s[a + j];
  }

  lemma NoAdjacentSpacesConcat(a: string, b: string)
    requires NoAdjacentSpaces(a) && NoAdjacentSpaces(b)
    requires a == [] || b == [] || !IsSpace(a[|a| - 1]) || !IsSpace(b[0])
    ensures NoAdjacentSpaces(a + b)
  {
    var ab := a + b;
    forall j | 0 <= j < |ab| - 1
      ensures !(IsSpace(ab[j]) && IsSpace(ab[j + 1]))
    {
      if j + 1 < |a| {
        assert ab[j] == a[j] && ab[j + 1] == a[j + 1];
      } else if j >= |a| {
        assert ab[j] == b[j - |a|] && ab[j + 1] == b[j + 1 - |a|];
      }
    }
  }

  // ---------------------------------------------------------------- split and join

  /** `s.split(sep)` with an explicit one-character separator: always at least one piece. */
  function Split(s: string, sep: char): (parts: seq<string>)
    ensures |parts| >= 1
    ensures forall k :: 0 <= k < |parts| ==> sep !in parts[k]
  {
    if s == [] then [""]
    else
      var rest := Split(s[1..], sep);
      if s[0] == sep then [""] + rest
      else [[s[0]] + rest[0]] + rest[1..]
  }

  /** `sep.join(parts)`. */
  function Join(sep: string, parts: seq<string>): string {
    if parts == [] then ""
    else if |parts| == 1 then parts[0]
    else parts[0] + sep + Join(sep, parts[1..])
  }

  /** s with every `from` replaced by `to`, position by position. */
  function ReplaceChar(s: string, from: char, to: char): (r: string)
    ensures |r| == |s|
    ensures forall i :: 0 <= i < |s| ==> r[i] == (if s[i] == from then to else s[i])
  {
    if s == [] then [] else [if s[0] == from then to else s[0]] + ReplaceChar(s[1..], from, to)
  }

  lemma JoinConsChar(sep: string, x: char, p: string, ps: seq<string>)
    ensures Join(sep, [[x] + p] + ps) == [x] + Join(sep, [p] + ps)
  {
    if ps != [] {
      assert ([[x] + p] + ps)[1..] == ps;
      assert ([p] + ps)[1..] == ps;
    }
  }

  /** Joining the pieces of a split on one character with one character replaces that character. */
  lemma {:induction false} JoinSplit(s: string, sep: char, glue: char)
    ensures Join([glue], Split(s, sep)) == ReplaceChar(s, sep, glue)
    decreases |s|
  {
    if s != [] {
      var rest := Split(s[1..], sep);
      JoinSplit(s[1..], sep, glue);
      if s[0] == sep {
        assert ([""] + rest)[1..] == rest;
      } else {
        JoinConsChar([glue], s[0], rest[0], rest[1..]);
        assert [rest[0]] + rest[1..] == rest;
      }
    }
  }

  /** Split and join with the same character are inverse: `sep.join(s.split(sep)) == s`. */
  lemma JoinSplitRoundTrip(s: string, sep: char)
    ensures Join([sep], Split(s, sep)) == s
  {
    JoinSplit(s, sep, sep);
  }

  // ---------------------------------------------------------------- counting and removal

  function Count(s: string, c: char): (n: nat)
    ensures n <= |s|
    ensures n == 0 <==> c !in s
  {
    if s == [] then 0 else (if s[0] == c then 1 else 0) + Count(s[1..], c)
  }

  /** `re.sub(<c>, "", s)` for a one-character pattern: drops every c and keeps the rest in order. */
  function RemoveAll(s: string, c: char): (r: string)
    ensures c !in r
    ensures |r| == |s| - Count(s, c)
    ensures forall x :: x in r ==> x in s
  {
    if s == [] then [] else (if s[0] == c then [] else [s[0]]) + RemoveAll(s[1..], c)
  }
}

/**
 * The scanning loop of Python's `re.findall` for a pattern that never matches the empty
 * string, separated from the pattern itself. A pattern is given by its match table: entry j
 * is the end of the match the pattern makes when tried at index j, or None.
 */
module FindAll {
  import opened Wrappers

  datatype Span = Span(start: nat, end: nat)

  /** Every match is non-empty and ends inside the text. */
  predicate IsMatchTable(m: seq<Option<nat>>) {
    forall j :: 0 <= j < |m| && m[j].Some? ==> j < m[j].value <= |m|
  }

  /** The matches findall reports from index i on: try each index, resume after a match. */
  function Scan(m: seq<Option<nat>>, i: nat): (spans: seq<Span>)
    requires IsMatchTable(m) && i <= |m|
    ensures forall k :: 0 <= k < |spans| ==>
              i <= spans[k].start < spans[k].end <= |m| && m[spans[k].start] == Some(spans[k].end)
    ensures forall k, l :: 0 <= k < l < |spans| ==> spans[k].end <= spans[l].start
    decreases |m| - i
  {
    if i == |m| then []
    else
      match m[i]
      case Some(e) => [Span(i, e)] + Scan(m, e)
      case None => Scan(m, i + 1)
  }

  /** Some reported span contains index j. */
  ghost predicate Covered(spans: seq<Span>, j: int) {
    exists k :: 0 <= k < |spans| && spans[k].start <= j < spans[k].end
  }

  /** Leftmost matching: every index where the pattern matches lies inside a reported span. */
  lemma {:induction false} ScanLeftmost(m: seq<Option<nat>>, i: nat)
    requires IsMatchTable(m) && i <= |m|
    ensures forall j :: i <= j < |m| && m[j].Some? ==> Covered(Scan(m, i), j)
    decreases |m| - i
  {
    if i < |m| {
      var spans := Scan(m, i);
      match m[i]
      case Some(e) =>
        ScanLeftmost(m, e);
        var rest := Scan(m, e);
        assert spans == [Span(i, e)] + rest;
        forall j | i <= j < |m| && m[j].Some?
          ensures Covered(spans, j)
        {
          if j < e {
            assert spans[0].start <= j < spans[0].end;
          } else {
            assert Covered(rest, j);
            var k :| 0 <= k < |rest| && rest[k].start <= j < rest[k].end;
            assert spans[k + 1] == rest[k];
            assert spans[k + 1].start <= j < spans[k + 1].end;
          }
        }
      case None =>
        ScanLeftmost(m, i + 1);
        assert spans == Scan(m, i + 1);
    }
  }

  /** The first reported span is the first index where the pattern matches; none at all when it matches nowhere. */
  lemma {:induction false} ScanFirst(m: seq<Option<nat>>, i: nat)
    requires IsMatchTable(m) && i <= |m|
    ensures Scan(m, i) == [] <==> forall j :: i <= j < |m| ==> m[j].None?
    ensures Scan(m, i) != [] ==> forall j :: i <= j < Scan(m, i)[0].start ==> m[j].None?
    decreases |m| - i
  {
    if i < |m| && m[i].None? {
      ScanFirst(m, i + 1);
    }
  }

  /**
   * A reported span that starts at a > i, where the pattern also matches at a - 1, must follow
   * another span that ends exactly at a; p is where that span starts.
   */
  lemma ScanPredecessor(m: seq<Option<nat>>, i: nat, k: nat) returns (p: nat)
    requires IsMatchTable(m) && i <= |m| && k < |Scan(m, i)|
    requires Scan(m, i)[k].start > i && m[Scan(m, i)[k].start - 1].Some?
    ensures i <= p < Scan(m, i)[k].start && m[p] == Some(Scan(m, i)[k].start)
  {
    var spans := Scan(m, i);
    var a := spans[k].start;
    ScanLeftmost(m, i);
    assert Covered(spans, a - 1);
    var k' :| 0 <= k' < |spans| && spans[k'].start <= a - 1 < spans[k'].end;
    p := spans[k'].start;
    assert m[p] == Some(spans[k'].end);
    assert spans[k'].end == a;
  }
}
