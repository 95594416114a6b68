/**
 * Turning one input line into a Record: `line.strip().split()`, exactly two
 * tokens, both accepted by `int()`. A line that fails any of these is
 * malformed and yields no record.
 */
module LineParse {
  import opened Util
  import opened IntText
  import opened RecordModel

  /** The ASCII characters Python's `str.split()` and `str.strip()` treat as whitespace. */
  predicate IsSpace(c: char)
  {
    // space, and the control characters 9-13 (tab, line feed, vertical tab,
    // form feed, carriage return) and 28-31 (the file, group, record and unit separators)
    c == ' ' || 9 <= c as int <= 13 || 28 <= c as int <= 31
  }

  /** A token: non-empty and free of whitespace. */
  predicate IsWord(t: string)
  {
    |t| > 0 && forall i :: 0 <= i < |t| ==> !IsSpace(t[i])
  }

  /** `str.lstrip()`: `s` without its leading whitespace. */
  function StripLeft(s: string): (r: string)
    ensures r == [] || !IsSpace(r[0])
  {
    if s != [] && IsSpace(s[0]) then StripLeft(s[1..]) else s
  }

  /** `str.rstrip()`: `s` without its trailing whitespace. */
  function StripRight(s: string): (r: string)
    ensures r == [] || !IsSpace(r[|r| - 1])
  {
    if s != [] && IsSpace(s[|s| - 1]) then StripRight(s[..|s| - 1]) else s
  }

  /** `str.strip()`: drop leading and trailing whitespace. */
  function Strip(s: string): string
  {
    StripRight(StripLeft(s))
  }

  /**
   * `str.split()` with no separator, scanning left to right: `cur` is the
   * token being read; every maximal run of non-whitespace becomes a token.
   */
  function SplitFrom(s: string, cur: string): (r: seq<string>)
    requires forall i :: 0 <= i < |cur| ==> !IsSpace(cur[i])
    ensures forall j :: 0 <= j < |r| ==> IsWord(r[j])
    decreases |s|
  {
    if s == [] then
      (if cur == [] then [] else [cur])
    else if IsSpace(s[0]) then
      (if cur == [] then SplitFrom(s[1..], []) else [cur] + SplitFrom(s[1..], []))
    else
      SplitFrom(s[1..], cur + [s[0]])
  }

  function Split(s: string): (r: seq<string>)
  {
    SplitFrom(s, [])
  }

  /** The tokens written out with one space between neighbours. */
  function Join(ts: seq<string>): string
  {
    if ts == [] then [] else if |ts| == 1 then ts[0] else ts[0] + " " + Join(ts[1..])
  }

  /** `Record(*map(int, line.strip().split()))` when there are exactly two integer tokens. */
  function ParseLine(line: string): Option<Record>
  {
    var items := Split(Strip(line));
    if |items| != 2 then None
    else
      match (ParseInt(items[0]), ParseInt(items[1]))
      case (Some(id), Some(value)) => Some(Record(id, value))
      case _ => None
  }

  /** The line a well-formed record is written as: "<id> <value>". */
  function FormatLine(r: Record): string
  {
    IntToString(r.recordId) + " " + IntToString(r.recordValue)
  }

  /** The records of the well-formed lines, in input order; malformed lines are skipped. */
  function ValidRecords(lines: seq<string>): seq<Record>
  {
    if lines == [] then []
    else
      ValidRecords(lines[..|lines| - 1]) +
      match ParseLine(lines[|lines| - 1])
      case Some(r) => [r]
      case None => []
  }

  /** How many lines a chunk reports as invalid (one warning each). */
  function MalformedCount(lines: seq<string>): nat
  {
    if lines == [] then 0
    else MalformedCount(lines[..|lines| - 1]) + if ParseLine(lines[|lines| - 1]).None? then 1 else 0
  }

  // ---------------------------------------------------------------------------
  // Splitting

  lemma {:induction false} SplitFromWord(w: string, rest: string, cur: string)
    requires forall i :: 0 <= i < |w| ==> !IsSpace(w[i])
    requires forall i :: 0 <= i < |cur| ==> !IsSpace(cur[i])
    ensures SplitFrom(w + rest, cur) == SplitFrom(rest, cur + w)
    decreases |w|
  {
    if w != [] {
      assert (w + rest)[0] == w[0];
      assert (w + rest)[1..] == w[1..] + rest;
      assert cur + w == (cur + [w[0]]) + w[1..];
      SplitFromWord(w[1..], rest, cur + [w[0]]);
    } else {
      assert w + rest == rest && cur + w == cur;
    }
  }

  /** Splitting the space-joined tokens gives the tokens back. */
  lemma {:induction false} SplitJoin(ts: seq<string>)
    requires forall j :: 0 <= j < |ts| ==> IsWord(ts[j])
    ensures Split(Join(ts)) == ts
    decreases |ts|
  {
    if |ts| == 1 {
      SplitFromWord(ts[0], [], []);
      assert ts[0] + [] == ts[0];
    } else if |ts| > 1 {
      var rest := " " + Join(ts[1..]);
      assert Join(ts) == ts[0] + rest;
      SplitFromWord(ts[0], rest, []);
      assert [] + ts[0] == ts[0];
      assert rest[1..] == Join(ts[1..]);
      SplitJoin(ts[1..]);
      assert ts == [ts[0]] + ts[1..];
    }
  }

  lemma {:induction false} SplitFromStripLeft(s: string)
    ensures SplitFrom(StripLeft(s), []) == SplitFrom(s, [])
    decreases |s|
  {
    if s != [] && IsSpace(s[0]) {
      SplitFromStripLeft(s[1..]);
    }
  }

  lemma {:induction false} SplitFromTrailingSpace(s: string, c: char, cur: string)
    requires IsSpace(c)
    requires forall i :: 0 <= i < |cur| ==> !IsSpace(cur[i])
    ensures SplitFrom(s + [c], cur) == SplitFrom(s, cur)
    decreases |s|
  {
    if s == [] {
      assert s + [c] == [c];
      assert [c][1..] == [];
    } else {
      assert (s + [c])[0] == s[0];
      assert (s + [c])[1..] == s[1..] + [c];
      if IsSpace(s[0]) {
        SplitFromTrailingSpace(s[1..], c, []);
      } else {
        SplitFromTrailingSpace(s[1..], c, cur + [s[0]]);
      }
    }
  }

  lemma {:induction false} SplitFromStripRight(s: string)
    ensures SplitFrom(StripRight(s), []) == SplitFrom(s, [])
    decreases |s|
  {
    if s != [] && IsSpace(s[|s| - 1]) {
      SplitFromStripRight(s[..|s| - 1]);
      assert s == s[..|s| - 1] + [s[|s| - 1]];
      SplitFromTrailingSpace(s[..|s| - 1], s[|s| - 1], []);
    }
  }

  /** `strip()` before `split()` changes nothing: split already ignores outer whitespace. */
  lemma SplitIgnoresStrip(s: string)
    ensures Split(Strip(s)) == Split(s)
  {
    SplitFromStripRight(StripLeft(s));
    SplitFromStripLeft(s);
  }

  /** `lstrip` drops exactly the leading whitespace: what it removes is whitespace and what it keeps is a suffix. */
  lemma {:induction false} StripLeftMeaning(s: string)
    ensures |StripLeft(s)| <= |s| && StripLeft(s) == s[|s| - |StripLeft(s)|..]
    ensures forall i :: 0 <= i < |s| - |StripLeft(s)| ==> IsSpace(s[i])
    decreases |s|
  {
    if s != [] && IsSpace(s[0]) {
      StripLeftMeaning(s[1..]);
      assert s[1..][|s| - 1 - |StripLeft(s)|..] == s[|s| - |StripLeft(s)|..];
      forall i | 0 <= i < |s| - |StripLeft(s)| ensures IsSpace(s[i]) {
        if i > 0 {
          assert s[i] == s[1..][i - 1];
        }
      }
    }
  }

  /** `rstrip` drops exactly the trailing whitespace: what it removes is whitespace and what it keeps is a prefix. */
  lemma {:induction false} StripRightMeaning(s: string)
    ensures |StripRight(s)| <= |s| && StripRight(s) == s[..|StripRight(s)|]
    ensures forall i :: |StripRight(s)| <= i < |s| ==> IsSpace(s[i])
    decreases |s|
  {
    if s != [] && IsSpace(s[|s| - 1]) {
      var init := s[..|s| - 1];
      StripRightMeaning(init);
      assert init[..|StripRight(s)|] == s[..|StripRight(s)|];
      forall i | |StripRight(s)| <= i < |s| ensures IsSpace(s[i]) {
        if i < |s| - 1 {
          assert s[i] == init[i];
        }
      }
    }
  }

  /** The characters of `s` that are not whitespace, in order. */
  function NonSpace(s: string): string
  {
    if s == [] then [] else (if IsSpace(s[0]) then [] else [s[0]]) + NonSpace(s[1..])
  }

  /** The tokens written out back to back. */
  function Concat(ts: seq<string>): string
  {
    if ts == [] then [] else ts[0] + Concat(ts[1..])
  }

  /** `split()` loses only whitespace: its tokens, back to back, are the line's non-whitespace characters. */
  lemma {:induction false} SplitFromConcat(s: string, cur: string)
    requires forall i :: 0 <= i < |cur| ==> !IsSpace(cur[i])
    ensures Concat(SplitFrom(s, cur)) == cur + NonSpace(s)
    decreases |s|
  {
    if s == [] {
      if cur != [] {
        assert Concat([cur]) == cur + Concat([]);
      }
    } else if IsSpace(s[0]) {
      SplitFromConcat(s[1..], []);
      if cur != [] {
        var rest := SplitFrom(s[1..], []);
        assert ([cur] + rest)[0] == cur && ([cur] + rest)[1..] == rest;
      }
    } else {
      SplitFromConcat(s[1..], cur + [s[0]]);
    }
  }

  lemma SplitConcat(s: string)
    ensures Concat(Split(s)) == NonSpace(s)
  {
    SplitFromConcat(s, []);
  }

  /** `str.strip()` removes exactly a whitespace prefix and a whitespace suffix; `a` is where the rest starts. */
  lemma StripMeaning(s: string) returns (a: nat)
    ensures a + |Strip(s)| <= |s| && Strip(s) == s[a..a + |Strip(s)|]
    ensures forall i :: 0 <= i < a ==> IsSpace(s[i])
    ensures forall i :: a + |Strip(s)| <= i < |s| ==> IsSpace(s[i])
    ensures Strip(s) == [] || (!IsSpace(Strip(s)[0]) && !IsSpace(Strip(s)[|Strip(s)| - 1]))
  {
    var l := StripLeft(s);
    StripLeftMeaning(s);
    StripRightMeaning(l);
    a := |s| - |l|;
    assert Strip(s) == l[..|Strip(s)|];
    forall i | a + |Strip(s)| <= i < |s| ensures IsSpace(s[i]) {
      assert s[i] == l[i - a];
    }
  }

  /** Only whitespace. */
  predicate IsGap(g: string)
  {
    forall i :: 0 <= i < |g| ==> IsSpace(g[i])
  }

  /** The words `ts` with `gaps[0]` before the first, `gaps[i]` between `ts[i-1]` and `ts[i]`, and the last gap after. */
  function Spaced(ts: seq<string>, gaps: seq<string>): string
    requires |gaps| == |ts| + 1
  {
    if ts == [] then gaps[0] else gaps[0] + ts[0] + Spaced(ts[1..], gaps[1..])
  }

  /** Whitespace between tokens is skipped. */
  lemma {:induction false} SkipGap(g: string, rest: string)
    requires IsGap(g)
    ensures SplitFrom(g + rest, []) == SplitFrom(rest, [])
    decreases |g|
  {
    if g != [] {
      assert (g + rest)[0] == g[0] && (g + rest)[1..] == g[1..] + rest;
      SkipGap(g[1..], rest);
    } else {
      assert g + rest == rest;
    }
  }

  /** Whitespace ends the token being read. */
  lemma CloseToken(g: string, rest: string, cur: string)
    requires IsGap(g) && g != [] && IsWord(cur)
    ensures SplitFrom(g + rest, cur) == [cur] + SplitFrom(rest, [])
  {
    assert (g + rest)[0] == g[0] && (g + rest)[1..] == g[1..] + rest;
    SkipGap(g[1..], rest);
  }

  /**
   * `str.split()` returns exactly the words of a line, whatever whitespace
   * surrounds them and however long the runs between them are.
   */
  lemma {:induction false} SplitSpaced(ts: seq<string>, gaps: seq<string>)
    requires |gaps| == |ts| + 1
    requires forall j :: 0 <= j < |ts| ==> IsWord(ts[j])
    requires forall j :: 0 <= j < |gaps| ==> IsGap(gaps[j])
    requires forall j :: 0 < j < |ts| ==> gaps[j] != []
    ensures Split(Spaced(ts, gaps)) == ts
    decreases |ts|
  {
    if ts == [] {
      SkipGap(gaps[0], []);
      assert gaps[0] + [] == gaps[0];
    } else {
      var rest := Spaced(ts[1..], gaps[1..]);
      assert Spaced(ts, gaps) == gaps[0] + (ts[0] + rest);
      SkipGap(gaps[0], ts[0] + rest);
      SplitFromWord(ts[0], rest, []);
      assert [] + ts[0] == ts[0];
      if |ts| == 1 {
        assert rest == gaps[1];
        if gaps[1] == [] {
          assert SplitFrom(rest, ts[0]) == [ts[0]];
        } else {
          CloseToken(gaps[1], [], ts[0]);
          assert gaps[1] + [] == gaps[1];
        }
        assert ts == [ts[0]];
      } else {
        var after := ts[1] + Spaced(ts[2..], gaps[2..]);
        assert ts[1..][1..] == ts[2..] && gaps[1..][1..] == gaps[2..];
        assert rest == gaps[1] + after;
        CloseToken(gaps[1], after, ts[0]);
        SkipGap(gaps[1], after);
        SplitSpaced(ts[1..], gaps[1..]);
        assert ts == [ts[0]] + ts[1..];
      }
    }
  }

  // ---------------------------------------------------------------------------
  // Line parsing

  /** A line yields a record exactly when it has two tokens that both parse as integers. */
  lemma ParseLineCharacterised(line: string)
    ensures ParseLine(line).Some? <==>
      |Split(line)| == 2 && ParseInt(Split(line)[0]).Some? && ParseInt(Split(line)[1]).Some?
    ensures ParseLine(line).Some? ==>
      ParseLine(line).value == Record(ParseInt(Split(line)[0]).value, ParseInt(Split(line)[1]).value)
  {
    SplitIgnoresStrip(line);
  }

  lemma IntToStringIsWord(n: int)
    ensures IsWord(IntToString(n))
  {
    IntToStringChars(n);
  }

  /** Every record survives being written as a line and parsed back. */
  lemma ParseFormatRoundTrip(r: Record)
    ensures ParseLine(FormatLine(r)) == Some(r)
  {
    var a, b := IntToString(r.recordId), IntToString(r.recordValue);
    IntToStringChars(r.recordId);
    IntToStringChars(r.recordValue);
    IntToStringIsWord(r.recordId);
    IntToStringIsWord(r.recordValue);
    assert Join([a, b]) == FormatLine(r);
    SplitJoin([a, b]);
    SplitIgnoresStrip(FormatLine(r));
    ParseIntRoundTrip(r.recordId);
    ParseIntRoundTrip(r.recordValue);
  }

  /** A line without exactly two tokens is malformed (the warning at the token-count test). */
  lemma WrongTokenCountRejected(line: string)
    requires |Split(line)| != 2
    ensures ParseLine(line) == None
  {
    ParseLineCharacterised(line);
  }

  /** Two tokens whose first is not an integer: `int()` raises and the line is malformed. */
  lemma BadIdRejected(line: string)
    requires |Split(line)| == 2 && ParseInt(Split(line)[0]).None?
    ensures ParseLine(line) == None
  {
    ParseLineCharacterised(line);
  }

  /** Two tokens whose second is not an integer: `int()` raises and the line is malformed. */
  lemma BadValueRejected(line: string)
    requires |Split(line)| == 2 && ParseInt(Split(line)[1]).None?
    ensures ParseLine(line) == None
  {
    ParseLineCharacterised(line);
  }

  /** Any id and value written with any whitespace around and between them parse back to that record. */
  lemma WellFormedAccepted(id: int, value: int, before: string, between: string, after: string)
    requires IsGap(before) && IsGap(between) && between != [] && IsGap(after)
    ensures ParseLine(before + IntToString(id) + between + IntToString(value) + after) == Some(Record(id, value))
  {
    var a, b := IntToString(id), IntToString(value);
    var line := before + a + between + b + after;
    IntToStringIsWord(id);
    IntToStringIsWord(value);
    assert Spaced([b], [between, after]) == between + b + after by {
      assert Spaced([b][1..], [between, after][1..]) == after;
    }
    assert Spaced([a, b], [before, between, after]) == line by {
      assert [a, b][1..] == [b] && [before, between, after][1..] == [between, after];
    }
    SplitSpaced([a, b], [before, between, after]);
    SplitIgnoresStrip(line);
    ParseIntRoundTrip(id);
    ParseIntRoundTrip(value);
  }

  /** Lines with a single token are malformed: "102" and "    90" from the repository's tests. */
  lemma OneTokenExamples()
    ensures ParseLine("102") == None
    ensures ParseLine("    90") == None
  {
    SplitIgnoresStrip("102");
    SplitJoin(["102"]);
    assert Split("102") == ["102"];
    SplitIgnoresStrip("    90");
    SplitFromStripLeft("    90");
    assert StripLeft("    90") == StripLeft("   90") == StripLeft("  90") == StripLeft(" 90") == StripLeft("90") == "90";
    SplitJoin(["90"]);
    assert Split("    90") == ["90"];
  }

  /** A non-integer identifier ("ABC 80") makes the line malformed. */
  lemma BadIdExample()
    ensures ParseLine("ABC 80") == None
  {
    SplitIgnoresStrip("ABC 80");
    SplitJoin(["ABC", "80"]);
    assert Join(["ABC", "80"]) == "ABC 80";
    assert !IsDigit('A');
  }

  /** A non-integer value ("106 DE") makes the line malformed. */
  lemma BadValueExample()
    ensures ParseLine("106 DE") == None
  {
    SplitIgnoresStrip("106 DE");
    SplitJoin(["106", "DE"]);
    assert Join(["106", "DE"]) == "106 DE";
    assert !IsDigits("DE") by { assert !IsDigit("DE"[0]); }
  }

  /** Well-formed lines of the repository's tests, including a negative value. */
  lemma WellFormedExamples()
    ensures ParseLine("101 50") == Some(Record(101, 50))
    ensures ParseLine("101 -50") == Some(Record(101, -50))
  {
    ParseFormatRoundTrip(Record(101, 50));
    ParseFormatRoundTrip(Record(101, -50));
    assert NatToString(10) == "10" && NatToString(101) == "101" && NatToString(50) == "50";
    assert FormatLine(Record(101, 50)) == "101 50";
    assert FormatLine(Record(101, -50)) == "101 -50";
  }

  // ---------------------------------------------------------------------------
  // Valid records of a sequence of lines

  lemma {:induction false} ValidRecordsAppend(a: seq<string>, b: seq<string>)
    ensures ValidRecords(a + b) == ValidRecords(a) + ValidRecords(b)
    decreases |b|
  {
    if b == [] {
      assert a + b == a;
    } else {
      var b' := b[..|b| - 1];
      assert (a + b)[..|a + b| - 1] == a + b';
      ValidRecordsAppend(a, b');
    }
  }

  /** Every valid record comes from a well-formed line of the input. */
  lemma {:induction false} ValidRecordsSound(lines: seq<string>, r: Record)
    requires r in ValidRecords(lines)
    ensures exists i :: 0 <= i < |lines| && ParseLine(lines[i]) == Some(r)
    decreases |lines|
  {
    var init := lines[..|lines| - 1];
    if r in ValidRecords(init) {
      ValidRecordsSound(init, r);
      var i :| 0 <= i < |init| && ParseLine(init[i]) == Some(r);
      assert lines[i] == init[i];
    } else {
      assert ParseLine(lines[|lines| - 1]) == Some(r);
    }
  }

  /** Every well-formed line contributes its record. */
  lemma {:induction false} ValidRecordsComplete(lines: seq<string>, i: nat)
    requires i < |lines| && ParseLine(lines[i]).Some?
    ensures ParseLine(lines[i]).value in ValidRecords(lines)
    decreases |lines|
  {
    var init := lines[..|lines| - 1];
    if i < |init| {
      assert lines[i] == init[i];
      ValidRecordsComplete(init, i);
    }
  }

  /** One warning per malformed line: warnings and valid records account for every line. */
  lemma {:induction false} ValidRecordsCount(lines: seq<string>)
    ensures |ValidRecords(lines)| + MalformedCount(lines) == |lines|
    decreases |lines|
  {
    if lines != [] {
      ValidRecordsCount(lines[..|lines| - 1]);
    }
  }

  /** When every line parses, the valid records are exactly the lines' records, in order. */
  lemma {:induction false} ValidRecordsAllWellFormed(lines: seq<string>, rs: seq<Record>)
    requires |lines| == |rs|
    requires forall i :: 0 <= i < |lines| ==> ParseLine(lines[i]) == Some(rs[i])
    ensures ValidRecords(lines) == rs
    decreases |lines|
  {
    if lines != [] {
      var n := |lines| - 1;
      assert forall i :: 0 <= i < n ==> lines[..n][i] == lines[i];
      ValidRecordsAllWellFormed(lines[..n], rs[..n]);
      assert rs == rs[..n] + [rs[n]];
    }
  }

  /** A file of records, one "<id> <value>" line each. */
  function FormatLines(rs: seq<Record>): seq<string>
  {
    seq(|rs|, i requires 0 <= i < |rs| => FormatLine(rs[i]))
  }

  /** Writing records out line by line and reading the lines back gives the records, in order. */
  lemma FormatLinesRoundTrip(rs: seq<Record>)
    ensures ValidRecords(FormatLines(rs)) == rs
  {
    forall i | 0 <= i < |rs| ensures ParseLine(FormatLines(rs)[i]) == Some(rs[i]) {
      ParseFormatRoundTrip(rs[i]);
    }
    ValidRecordsAllWellFormed(FormatLines(rs), rs);
  }
}
