/**
 * The records file ("records.txt") as a sequence of lines: how a line becomes a
 * record when the list is loaded, how a record is written when it is saved,
 * and what loading a whole file produces.
 */
module RecordFile {
  import opened Wrappers
  import opened Text
  import opened IntParse
  import opened TimeCodec
  import opened Records

  /** The line GuardarListaEnArchivo writes for one node: "name ; time". */
  function FormatLine(r: Record): string {
    r.playerName + " ; " + r.timeString
  }

  /** The whole file as saved: one line per record, head to tail. */
  function FormatLines(s: seq<Record>): (lines: seq<string>)
    ensures |lines| == |s|
  {
    seq(|s|, i requires 0 <= i < |s| => FormatLine(s[i]))
  }

  /**
   * One line as CargarRecordsDesdeArchivo reads it: blank lines and lines
   * without a second ';'-separated field are skipped; otherwise the first two
   * fields, trimmed, are the name and the displayed time, and the sort key is
   * parsed from the trimmed time.
   */
  function ParseLine(line: string): Option<Record> {
    if IsBlank(line) then None
    else
      var parts := Split(line, ';');
      if |parts| < 2 then None
      else
        var name := Trim(parts[0]);
        var time := Trim(parts[1]);
        Some(Record(name, ParseTimeToSeconds(time), time))
  }

  /** The list after loading `lines` in order into an empty list, each accepted line by sorted insertion. */
  function LoadLines(lines: seq<string>): seq<Record> {
    if lines == [] then []
    else
      var acc := LoadLines(lines[..|lines| - 1]);
      match ParseLine(lines[|lines| - 1])
      case None => acc
      case Some(r) => Insert(acc, r)
  }

  /** Loading a file that may not exist: an absent file is an empty leaderboard. */
  function LoadRecords(file: Option<seq<string>>): seq<Record> {
    match file
    case None => []
    case Some(lines) => LoadLines(lines)
  }

  /** The records a file holds, in file order: one per accepted line. */
  function AcceptedRecords(lines: seq<string>): seq<Record> {
    if lines == [] then []
    else
      var acc := AcceptedRecords(lines[..|lines| - 1]);
      match ParseLine(lines[|lines| - 1])
      case None => acc
      case Some(r) => acc + [r]
  }

  /**
   * What loading produces and what survives a save: the name and the time
   * are trimmed, hold no ';', and the sort key is the parse of the time.
   */
  predicate Clean(r: Record) {
    IsTrimmed(r.playerName) && IsTrimmed(r.timeString) &&
    ';' !in r.playerName && ';' !in r.timeString &&
    r.timeSeconds == ParseTimeToSeconds(r.timeString)
  }

  /** A line is accepted exactly when it contains a ';', and what it yields is clean. */
  lemma ParseLineAccepts(line: string)
    ensures ParseLine(line).Some? <==> ';' in line
    ensures ParseLine(line).Some? ==> Clean(ParseLine(line).value)
  {
    SplitFindsSeparator(line, ';');
    if ';' in line {
      var i :| 0 <= i < |line| && line[i] == ';';
      assert !IsWhiteSpace(line[i]);
      var parts := Split(line, ';');
      StripKeeps(parts[0], IsWhiteSpace);
      StripKeeps(parts[1], IsWhiteSpace);
    }
  }

  /** A record reads back from its own line exactly when it is clean. */
  lemma ParseFormatLine(r: Record)
    ensures ParseLine(FormatLine(r)) == Some(r) <==> Clean(r)
  {
    var line := FormatLine(r);
    assert line[|r.playerName| + 1] == ';';
    ParseLineAccepts(line);
    if Clean(r) {
      FormatLineSplits(r);
      TrimPadded(r.playerName);
      TrimPadded(r.timeString);
      assert !IsBlank(line) by {
        assert !IsWhiteSpace(line[|r.playerName| + 1]);
      }
    }
  }

  /** Without ';' in either field, a saved line splits into exactly the padded name and the padded time. */
  lemma FormatLineSplits(r: Record)
    requires ';' !in r.playerName && ';' !in r.timeString
    ensures Split(FormatLine(r), ';') == [r.playerName + " ", " " + r.timeString]
  {
    var a := r.playerName + " ";
    var b := " " + r.timeString;
    assert Join([a, b], ';') == FormatLine(r);
    SplitJoin([a, b], ';');
  }

  /** A trimmed string padded with one space on either side trims back to itself. */
  lemma TrimPadded(x: string)
    requires IsTrimmed(x)
    ensures Trim(x + " ") == x && Trim(" " + x) == x
  {
    var p := x + " ";
    var q := " " + x;
    if x == [] {
      assert IsBlank(p) && IsBlank(q);
    } else {
      assert TrimStart(p, IsWhiteSpace) == p;
      assert p[..|p| - 1] == x;
      assert TrimEnd(x, IsWhiteSpace) == x;
      assert q[1..] == x;
      assert TrimStart(x, IsWhiteSpace) == x;
    }
  }

  /** Whatever order the file is in, the loaded list is sorted. */
  lemma {:induction false} LoadedSorted(lines: seq<string>)
    ensures Sorted(LoadLines(lines))
  {
    if lines != [] {
      var init := lines[..|lines| - 1];
      LoadedSorted(init);
      if ParseLine(lines[|lines| - 1]).Some? {
        InsertKeepsSorted(LoadLines(init), ParseLine(lines[|lines| - 1]).value);
      }
    }
  }

  /** Loading keeps exactly the accepted lines' records, each once, and nothing else. */
  lemma {:induction false} LoadedPermutation(lines: seq<string>)
    ensures multiset(LoadLines(lines)) == multiset(AcceptedRecords(lines))
  {
    if lines != [] {
      var init := lines[..|lines| - 1];
      LoadedPermutation(init);
      if ParseLine(lines[|lines| - 1]).Some? {
        InsertAddsOne(LoadLines(init), ParseLine(lines[|lines| - 1]).value);
      }
    }
  }

  /** Every record a file yields is clean. */
  lemma {:induction false} AcceptedClean(lines: seq<string>)
    ensures forall r :: r in AcceptedRecords(lines) ==> Clean(r)
  {
    if lines != [] {
      AcceptedClean(lines[..|lines| - 1]);
      ParseLineAccepts(lines[|lines| - 1]);
    }
  }

  /** Every record in a loaded list is clean. */
  lemma LoadedClean(lines: seq<string>)
    ensures forall i :: 0 <= i < |LoadLines(lines)| ==> Clean(LoadLines(lines)[i])
  {
    LoadedPermutation(lines);
    AcceptedClean(lines);
    forall i | 0 <= i < |LoadLines(lines)|
      ensures Clean(LoadLines(lines)[i])
    {
      assert LoadLines(lines)[i] in multiset(AcceptedRecords(lines));
    }
  }

  /** Saving a sorted list of clean records and loading the file gives the same list back. */
  lemma {:induction false} LoadFormatLines(s: seq<Record>)
    requires Sorted(s)
    requires forall i :: 0 <= i < |s| ==> Clean(s[i])
    ensures LoadLines(FormatLines(s)) == s
  {
    if s != [] {
      var n := |s| - 1;
      var lines := FormatLines(s);
      var init := s[..n];
      assert lines[..n] == FormatLines(init);
      LoadFormatLines(init);
      ParseFormatLine(s[n]);
      LoadStep(lines, s[n]);
      InsertAtEnd(init, s[n]);
      assert init + [s[n]] == s;
    }
  }

  /** One more accepted line inserts its record into what the earlier lines loaded. */
  lemma LoadStep(lines: seq<string>, r: Record)
    requires lines != [] && ParseLine(lines[|lines| - 1]) == Some(r)
    ensures LoadLines(lines) == Insert(LoadLines(lines[..|lines| - 1]), r)
  {
  }

  /** Re-saving a file the leaderboard wrote, after loading it, writes the same lines. */
  lemma ResaveIdentical(s: seq<Record>)
    requires Sorted(s)
    requires forall i :: 0 <= i < |s| ==> Clean(s[i])
    ensures FormatLines(LoadRecords(Some(FormatLines(s)))) == FormatLines(s)
  {
    LoadFormatLines(s);
  }

  /** A line without ';' is dropped wherever it stands: the lines around it load as if it were absent. */
  lemma {:induction false} MalformedLineSkipped(pre: seq<string>, junk: string, post: seq<string>)
    requires ';' !in junk
    ensures LoadLines(pre + [junk] + post) == LoadLines(pre + post)
  {
    var with := pre + [junk] + post;
    var without := pre + post;
    if post == [] {
      assert with[..|with| - 1] == pre && with[|with| - 1] == junk;
      assert without == pre;
      ParseLineAccepts(junk);
      LoadSkip(with);
    } else {
      var n := |post| - 1;
      assert with[..|with| - 1] == pre + [junk] + post[..n];
      assert without[..|without| - 1] == pre + post[..n];
      MalformedLineSkipped(pre, junk, post[..n]);
      LoadSameLast(with, without);
    }
  }

  /** A last line that is not accepted leaves what the earlier lines loaded. */
  lemma LoadSkip(lines: seq<string>)
    requires lines != [] && ParseLine(lines[|lines| - 1]).None?
    ensures LoadLines(lines) == LoadLines(lines[..|lines| - 1])
  {
  }

  /** Two files whose earlier lines load alike and whose last lines agree load alike. */
  lemma LoadSameLast(p: seq<string>, q: seq<string>)
    requires p != [] && q != [] && p[|p| - 1] == q[|q| - 1]
    requires LoadLines(p[..|p| - 1]) == LoadLines(q[..|q| - 1])
    ensures LoadLines(p) == LoadLines(q)
  {
  }

  /**
   * A name holding ';' does not survive a save and reload: the part before its
   * first ';' comes back as the name, and the part after it as the time text,
   * which also becomes the sort key.
   */
  lemma SemicolonNameSplits(a: string, b: string, r: Record)
    requires r.playerName == a + ";" + b
    requires IsTrimmed(a) && IsTrimmed(b) && ';' !in a && ';' !in b && ';' !in r.timeString
    ensures ParseLine(FormatLine(r)) == Some(Record(a, ParseTimeToSeconds(b), b))
  {
    var line := FormatLine(r);
    assert line == a + ";" + b + " ; " + r.timeString;
    ThreeFieldsSplit(a, b, r.timeString);
    assert !IsBlank(line) by { assert !IsWhiteSpace(line[|a|]); }
    TrimPadded(b);
  }

  /** The saved line of such a name splits into three pieces. */
  lemma ThreeFieldsSplit(a: string, b: string, t: string)
    requires ';' !in a && ';' !in b && ';' !in t
    ensures Split(a + ";" + b + " ; " + t, ';') == [a, b + " ", " " + t]
  {
    var parts := [a, b + " ", " " + t];
    var tail := parts[1..];
    assert tail[1..] == [" " + t];
    assert Join(tail, ';') == (b + " ") + [';'] + (" " + t);
    assert Join(parts, ';') == a + [';'] + Join(tail, ';');
    assert a + ";" + b + " ; " + t == a + [';'] + ((b + " ") + [';'] + (" " + t));
    SplitJoin(parts, ';');
  }

  /** For example, "a;b" with time "1:23" reloads as name "a", time text "b" and key 0, ahead of every positive time. */
  lemma SemicolonNameExample()
    ensures ParseLine(FormatLine(Record("a;b", 83, "1:23"))) == Some(Record("a", 0, "b"))
  {
    assert "a;b" == "a" + ";" + "b";
    SemicolonNameSplits("a", "b", Record("a;b", 83, "1:23"));
    TryParseRejects("b", 0);
    ParseWithoutColon("b");
  }
}
