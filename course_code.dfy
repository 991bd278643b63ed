/** The course-code pattern
      [A-Z]{2}[G|1-9]{1}[AB|0-9]{3}[0|1|3|5|7]{1}[0-9]{2}
    and the leftmost, non-overlapping search that `Regex::find_iter` runs with it.

    Inside a bracketed class `|` is an ordinary character, so position 2 accepts
    `G`, `|` or `1`-`9`, positions 3 to 5 accept `A`, `B`, `|` or `0`-`9`, and
    position 6 accepts `0`, `1`, `3`, `5`, `7` or `|`. Every match is exactly
    nine characters long and the pattern has no alternation, so the leftmost
    match at or after a position is the first nine-character window there that
    fits the classes, and the search resumes right after it. */
module CourseCode {

  const CodeLength: nat := 9

  predicate IsUpper(c: char) { 'A' <= c <= 'Z' }

  predicate IsDigit(c: char) { '0' <= c <= '9' }

  /** `[G|1-9]` */
  predicate InYearClass(c: char) { c == 'G' || c == '|' || ('1' <= c <= '9') }

  /** `[AB|0-9]` */
  predicate InSerialClass(c: char) { c == 'A' || c == 'B' || c == '|' || IsDigit(c) }

  /** `[0|1|3|5|7]` */
  predicate InSectionClass(c: char)
  {
    c == '0' || c == '1' || c == '3' || c == '5' || c == '7' || c == '|'
  }

  /** The class the pattern puts at position `k` of a code. */
  predicate ClassAt(k: nat, c: char)
  {
    if k < 2 then IsUpper(c)
    else if k == 2 then InYearClass(c)
    else if k < 6 then InSerialClass(c)
    else if k == 6 then InSectionClass(c)
    else IsDigit(c)
  }

  /** A course code is nine characters, each in its position's class; so it
      is made only of upper-case letters, digits and bars. */
  predicate IsCourseCode(w: string): (r: bool)
    ensures r ==> |w| == CodeLength
    ensures r ==> forall k :: 0 <= k < |w| ==> IsUpper(w[k]) || IsDigit(w[k]) || w[k] == '|'
  {
    |w| == CodeLength && forall k :: 0 <= k < CodeLength ==> ClassAt(k, w[k])
  }

  /** The classes as the pattern spells them: a registrar-style code fits, a
      section digit outside {0,1,3,5,7} or a lower-case prefix does not, and
      since `|` inside brackets is literal, a code made of bars fits too. Among
      the digits, the section position takes exactly 0, 1, 3, 5 and 7. */
  lemma ClassesAsWritten()
    ensures IsCourseCode("CS2006301")
    ensures !IsCourseCode("CS2006201")
    ensures !IsCourseCode("cs2006301")
    ensures IsCourseCode("AB|||||00")
    ensures forall c :: IsDigit(c) ==> (InSectionClass(c) <==> c in "01357")
  {
    assert !InSectionClass("CS2006201"[6]);
    assert !IsUpper("cs2006301"[0]);
  }

  /** The nine-character window of `s` that starts at `i` matches the pattern. */
  predicate MatchesAt(s: string, i: nat)
  {
    i + CodeLength <= |s| && IsCourseCode(s[i..i + CodeLength])
  }

  /** Start positions of the matches `find_iter` reports, searching from `from`:
      emit a matching window and jump past it, otherwise move on by one. */
  function MatchStarts(s: string, from: nat): (r: seq<nat>)
    requires from <= |s|
    ensures forall k :: 0 <= k < |r| ==> from <= r[k] && MatchesAt(s, r[k])
    ensures forall j, k :: 0 <= j < k < |r| ==> r[j] + CodeLength <= r[k]
    decreases |s| - from
  {
    if from + CodeLength > |s| then []
    else if MatchesAt(s, from) then [from] + MatchStarts(s, from + CodeLength)
    else MatchStarts(s, from + 1)
  }

  /** `re.find_iter(s).map(|m| m.as_str()).collect()`: the matched texts in order
      of occurrence, duplicates included. */
  function FindCodes(s: string): (codes: seq<string>)
    ensures |codes| == |MatchStarts(s, 0)|
    ensures forall k :: 0 <= k < |codes| ==> IsCourseCode(codes[k])
    ensures forall k :: 0 <= k < |codes| ==>
      codes[k] == s[MatchStarts(s, 0)[k]..MatchStarts(s, 0)[k] + CodeLength]
  {
    var starts := MatchStarts(s, 0);
    seq(|starts|, k requires 0 <= k < |starts| => s[starts[k]..starts[k] + CodeLength])
  }

  // ---------------------------------------------------------------------
  // An independent description of the search: the reported windows match,
  // start at or after the search start and do not overlap, and no matching
  // window starts in any gap between them (nor after the last one).

  /** No window starting in [lo, hi) matches. */
  ghost predicate NoMatchIn(s: string, lo: nat, hi: nat)
  {
    forall j: nat :: lo <= j < hi ==> !MatchesAt(s, j)
  }

  /** Where the k-th gap begins: the search start, or the end of match k-1. */
  function GapStart(from: nat, r: seq<nat>, k: nat): nat
    requires k <= |r|
  {
    if k == 0 then from else r[k - 1] + CodeLength
  }

  /** Where the k-th gap ends: the start of match k, or the end of the text. */
  function GapEnd(s: string, r: seq<nat>, k: nat): nat
    requires k <= |r|
  {
    if k < |r| then r[k] else |s|
  }

  ghost predicate AllMatch(s: string, r: seq<nat>)
  {
    forall k :: 0 <= k < |r| ==> MatchesAt(s, r[k])
  }

  ghost predicate Ordered(from: nat, r: seq<nat>)
  {
    && (forall k :: 0 <= k < |r| ==> from <= r[k])
    && (forall j, k :: 0 <= j < k < |r| ==> r[j] + CodeLength <= r[k])
  }

  ghost predicate GapsEmpty(s: string, from: nat, r: seq<nat>)
  {
    forall k :: 0 <= k <= |r| ==> NoMatchIn(s, GapStart(from, r, k), GapEnd(s, r, k))
  }

  ghost predicate IsLeftmostScan(s: string, from: nat, r: seq<nat>)
  {
    AllMatch(s, r) && Ordered(from, r) && GapsEmpty(s, from, r)
  }

  /** A match at the search start followed by a description of the search
      after it describes the search from the start. */
  lemma PrependMatch(s: string, from: nat, rest: seq<nat>)
    requires MatchesAt(s, from)
    requires IsLeftmostScan(s, from + CodeLength, rest)
    ensures IsLeftmostScan(s, from, [from] + rest)
  {
    var r := [from] + rest;
    assert AllMatch(s, r) by {
      forall k | 0 < k < |r| ensures MatchesAt(s, r[k]) {
        assert r[k] == rest[k - 1];
      }
    }
    assert Ordered(from, r) by {
      forall j, k | 0 <= j < k < |r| ensures r[j] + CodeLength <= r[k] {
        assert r[k] == rest[k - 1];
        if j > 0 {
          assert r[j] == rest[j - 1];
        }
      }
    }
    assert GapsEmpty(s, from, r) by {
      forall k | 0 <= k <= |r|
        ensures NoMatchIn(s, GapStart(from, r, k), GapEnd(s, r, k))
      {
        if k > 0 {
          assert GapStart(from, r, k) == GapStart(from + CodeLength, rest, k - 1);
          assert GapEnd(s, r, k) == GapEnd(s, rest, k - 1);
        }
      }
    }
  }

  /** A window at the search start that does not match can join the first gap. */
  lemma PrependNonMatch(s: string, from: nat, r: seq<nat>)
    requires !MatchesAt(s, from)
    requires IsLeftmostScan(s, from + 1, r)
    ensures IsLeftmostScan(s, from, r)
  {
    assert GapsEmpty(s, from, r) by {
      forall k | 0 <= k <= |r|
        ensures NoMatchIn(s, GapStart(from, r, k), GapEnd(s, r, k))
      {
        assert NoMatchIn(s, GapStart(from + 1, r, k), GapEnd(s, r, k));
      }
    }
  }

  /** The scan meets the description: increasing, non-overlapping matches and
      no matching window skipped. */
  lemma {:induction false} ScanIsLeftmost(s: string, from: nat)
    requires from <= |s|
    ensures IsLeftmostScan(s, from, MatchStarts(s, from))
    decreases |s| - from
  {
    if from + CodeLength > |s| {
      assert MatchStarts(s, from) == [];
      assert NoMatchIn(s, from, |s|);
    } else if MatchesAt(s, from) {
      ScanIsLeftmost(s, from + CodeLength);
      PrependMatch(s, from, MatchStarts(s, from + CodeLength));
    } else {
      ScanIsLeftmost(s, from + 1);
      PrependNonMatch(s, from, MatchStarts(s, from + 1));
    }
  }

  /** Dropping a reported match at the search start leaves a description of
      the search that resumes after it. */
  lemma DropFirstMatch(s: string, from: nat, r: seq<nat>)
    requires IsLeftmostScan(s, from, r)
    requires r != [] && r[0] == from
    ensures IsLeftmostScan(s, from + CodeLength, r[1..])
  {
    var rest := r[1..];
    assert AllMatch(s, rest) by {
      forall k | 0 <= k < |rest| ensures MatchesAt(s, rest[k]) {
        assert rest[k] == r[k + 1];
      }
    }
    assert Ordered(from + CodeLength, rest) by {
      forall k | 0 <= k < |rest| ensures from + CodeLength <= rest[k] {
        assert rest[k] == r[k + 1];
        assert r[0] + CodeLength <= r[k + 1];
      }
      forall j, k | 0 <= j < k < |rest| ensures rest[j] + CodeLength <= rest[k] {
        assert rest[j] == r[j + 1] && rest[k] == r[k + 1];
      }
    }
    assert GapsEmpty(s, from + CodeLength, rest) by {
      forall k | 0 <= k <= |rest|
        ensures NoMatchIn(s, GapStart(from + CodeLength, rest, k), GapEnd(s, rest, k))
      {
        assert GapStart(from + CodeLength, rest, k) == GapStart(from, r, k + 1);
        assert GapEnd(s, rest, k) == GapEnd(s, r, k + 1);
      }
    }
  }

  /** A window that does not match can be dropped from the first gap. */
  lemma SkipNonMatch(s: string, from: nat, r: seq<nat>)
    requires IsLeftmostScan(s, from, r)
    requires !MatchesAt(s, from)
    ensures IsLeftmostScan(s, from + 1, r)
  {
    assert Ordered(from + 1, r) by {
      forall k | 0 <= k < |r| ensures from + 1 <= r[k] {
        assert MatchesAt(s, r[k]) && from <= r[k];
      }
    }
    assert GapsEmpty(s, from + 1, r) by {
      forall k | 0 <= k <= |r|
        ensures NoMatchIn(s, GapStart(from + 1, r, k), GapEnd(s, r, k))
      {
        assert NoMatchIn(s, GapStart(from, r, k), GapEnd(s, r, k));
      }
    }
  }

  /** Conversely, the description determines the scan: any sequence of start
      positions meeting it is exactly what `find_iter` reports. */
  lemma {:induction false} LeftmostScanUnique(s: string, from: nat, r: seq<nat>)
    requires from <= |s|
    requires IsLeftmostScan(s, from, r)
    ensures r == MatchStarts(s, from)
    decreases |s| - from
  {
    if from + CodeLength > |s| {
      assert r == [] by {
        if r != [] {
          assert false;
        }
      }
    } else if MatchesAt(s, from) {
      assert NoMatchIn(s, GapStart(from, r, 0), GapEnd(s, r, 0));
      assert r != [] && r[0] == from by {
        if r != [] {
          assert MatchesAt(s, r[0]) && from <= r[0];
        }
      }
      DropFirstMatch(s, from, r);
      LeftmostScanUnique(s, from + CodeLength, r[1..]);
      assert r == [from] + r[1..];
    } else {
      SkipNonMatch(s, from, r);
      LeftmostScanUnique(s, from + 1, r);
    }
  }

  /** A text without any matching window yields no codes, and only such a text
      does; this is an empty result, not an error. */
  lemma NoMatchIffEmpty(s: string)
    ensures FindCodes(s) == [] <==> NoMatchIn(s, 0, |s|)
  {
    ScanIsLeftmost(s, 0);
    var r := MatchStarts(s, 0);
    if r == [] {
      assert NoMatchIn(s, GapStart(0, r, 0), GapEnd(s, r, 0));
    } else {
      assert MatchesAt(s, r[0]);
    }
  }

  // ---------------------------------------------------------------------
  // Scanning codes laid end to end gives the same codes back.

  function Join(codes: seq<string>): (s: string)
    requires forall k :: 0 <= k < |codes| ==> IsCourseCode(codes[k])
    ensures |s| == |codes| * CodeLength
  {
    if codes == [] then []
    else
      var rest := Join(codes[1..]);
      assert IsCourseCode(codes[0]);
      assert |rest| + CodeLength == |codes| * CodeLength;
      codes[0] + rest
  }

  /** The k-th block of nine characters of the joined text is the k-th code. */
  lemma {:induction false} JoinSlice(codes: seq<string>, k: nat)
    requires forall i :: 0 <= i < |codes| ==> IsCourseCode(codes[i])
    requires k < |codes|
    ensures Join(codes)[k * CodeLength..k * CodeLength + CodeLength] == codes[k]
    decreases k
  {
    var rest := codes[1..];
    assert IsCourseCode(codes[0]);
    assert Join(codes) == codes[0] + Join(rest);
    if k > 0 {
      JoinSlice(rest, k - 1);
      assert rest[k - 1] == codes[k];
      assert k * CodeLength == CodeLength + (k - 1) * CodeLength;
    }
  }

  lemma {:induction false} JoinedStarts(p: string, codes: seq<string>)
    requires forall k :: 0 <= k < |codes| ==> IsCourseCode(codes[k])
    ensures |MatchStarts(p + Join(codes), |p|)| == |codes|
    ensures forall k :: 0 <= k < |codes| ==> MatchStarts(p + Join(codes), |p|)[k] == |p| + k * CodeLength
    decreases |codes|
  {
    var s := p + Join(codes);
    if codes != [] {
      var p' := p + codes[0];
      assert s == p' + Join(codes[1..]);
      assert s[|p|..|p| + CodeLength] == codes[0];
      assert MatchesAt(s, |p|);
      JoinedStarts(p', codes[1..]);
      assert MatchStarts(s, |p|) == [|p|] + MatchStarts(s, |p'|);
    }
  }

  /** Searching the extracted codes written end to end finds exactly those
      codes again, in the same order and with the same repetitions. */
  lemma RescanJoined(codes: seq<string>)
    requires forall k :: 0 <= k < |codes| ==> IsCourseCode(codes[k])
    ensures FindCodes(Join(codes)) == codes
  {
    var s := Join(codes);
    assert [] + s == s;
    JoinedStarts([], codes);
    var starts := MatchStarts(s, 0);
    var found := FindCodes(s);
    forall k | 0 <= k < |codes|
      ensures found[k] == codes[k]
    {
      JoinSlice(codes, k);
    }
  }

  /** A code written twice in a row is reported twice: the scan does not drop
      a repeat. (A second copy that overlaps an earlier match is not found.) */
  lemma DuplicatesKept(code: string)
    requires IsCourseCode(code)
    ensures FindCodes(code + code) == [code, code]
  {
    assert Join([code, code]) == code + code by {
      assert Join([code]) == code + Join([]);
      assert [code, code][1..] == [code];
    }
    RescanJoined([code, code]);
  }
}
