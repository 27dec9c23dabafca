/** Selecting the coordinate records of a TSP file.

    The file is given as its sequence of lines (a file that cannot be
    opened has none). Lines before the first NODE_COORD_SECTION line are
    header and ignored; every later line is a coordinate record until a
    TOUR_SECTION line ends the section; a repeated NODE_COORD_SECTION line
    is skipped. Turning one record into a city is the abstract `parseLine`.
 */
module TspParser {
  import opened Cities

  const NodeCoordSection: string := "NODE_COORD_SECTION"
  const TourSection: string := "TOUR_SECTION"

  /** The position of the first occurrence of `line` in `lines`, or
      `|lines|` when there is none. */
  function FirstIndexOf(lines: seq<string>, line: string): (r: nat)
    ensures r <= |lines|
    ensures r < |lines| ==> lines[r] == line
    ensures forall j :: 0 <= j < r ==> lines[j] != line
    decreases |lines|
  {
    if lines == [] then 0
    else if lines[0] == line then 0
    else FirstIndexOf(lines[1..], line) + 1
  }

  /** A first occurrence found some other way is the one FirstIndexOf finds. */
  lemma {:induction false} FirstIndexOfAt(lines: seq<string>, line: string, t: nat)
    requires t <= |lines|
    requires t < |lines| ==> lines[t] == line
    requires forall j :: 0 <= j < t ==> lines[j] != line
    ensures FirstIndexOf(lines, line) == t
  {
  }

  /** `lines` without the lines equal to `marker`, in order. */
  function Without(lines: seq<string>, marker: string): seq<string>
    decreases |lines|
  {
    if lines == [] then []
    else
      var last := lines[|lines| - 1];
      Without(lines[..|lines| - 1], marker) + if last == marker then [] else [last]
  }

  /** Without drops every `marker` line and keeps only lines it was given. */
  lemma {:induction false} WithoutKeeps(lines: seq<string>, marker: string, line: string)
    requires line in Without(lines, marker)
    ensures line != marker && line in lines
    decreases |lines|
  {
    var init := lines[..|lines| - 1];
    var last := lines[|lines| - 1];
    if line in Without(init, marker) {
      WithoutKeeps(init, marker, line);
      assert line in lines by {
        var j :| 0 <= j < |init| && init[j] == line;
        assert lines[j] == line;
      }
    } else {
      assert line == last && last != marker;
    }
  }

  /** The lines after the first `open` line and before the first `close`
      line that follows it, less any further `open` lines; none when there
      is no `open` line. */
  function Section(lines: seq<string>, open: string, close: string): seq<string>
  {
    var k := FirstIndexOf(lines, open);
    if k == |lines| then []
    else
      var body := lines[k + 1..];
      Without(body[..FirstIndexOf(body, close)], open)
  }

  /** The record lines of a TSP file. */
  function NodeLines(lines: seq<string>): seq<string>
  {
    Section(lines, NodeCoordSection, TourSection)
  }

  /** One city per record line, `parseLine` of that line, in order. */
  function ParseEach(parseLine: string -> City, lines: seq<string>): seq<City>
  {
    seq(|lines|, i requires 0 <= i < |lines| => parseLine(lines[i]))
  }

  lemma {:induction false} WithoutSnoc(lines: seq<string>, line: string, marker: string)
    ensures Without(lines + [line], marker) == Without(lines, marker) + if line == marker then [] else [line]
  {
    assert (lines + [line])[..|lines|] == lines;
  }

  lemma {:induction false} ParseEachSnoc(parseLine: string -> City, lines: seq<string>, line: string)
    ensures ParseEach(parseLine, lines + [line]) == ParseEach(parseLine, lines) + [parseLine(line)]
  {
  }

  /** What the line loop of parseTSPFile has gathered after some lines:
      whether it is inside the coordinate section, whether a TOUR_SECTION
      line has ended the loop, and the record lines read so far. */
  datatype ScanState = ScanState(readingNodes: bool, stopped: bool, records: seq<string>)

  /** One iteration of the loop on `line`. Once stopped, lines are no
      longer read; reading, once begun, is never switched off; the loop
      stops only at a TOUR_SECTION line inside the section; and the only
      record it can add is the current line, while reading, when it is
      neither marker. */
  function Step(st: ScanState, line: string): (r: ScanState)
    ensures st.stopped ==> r == st
    ensures st.readingNodes ==> r.readingNodes
    ensures r.stopped && !st.stopped ==> st.readingNodes && line == TourSection
    ensures || r.records == st.records
            || (&& st.readingNodes && !st.stopped
                && line != NodeCoordSection && line != TourSection
                && r.records == st.records + [line])
  {
    if st.stopped then st
    else if line == NodeCoordSection then st.(readingNodes := true)
    else if st.readingNodes && line == TourSection then st.(stopped := true)
    else if st.readingNodes then st.(records := st.records + [line])
    else st
  }

  /** The loop run over `lines`, one Step per line: it is reading exactly
      when a NODE_COORD_SECTION line has been seen, it stops only while
      reading, it reads at most one record per line, and no record is a
      section marker. */
  function Scan(lines: seq<string>): (r: ScanState)
    ensures r.readingNodes <==> NodeCoordSection in lines
    ensures r.stopped ==> r.readingNodes
    ensures |r.records| <= |lines|
    ensures forall i :: 0 <= i < |r.records| ==>
      r.records[i] != NodeCoordSection && r.records[i] != TourSection
    decreases |lines|
  {
    if lines == [] then ScanState(false, false, [])
    else
      var init := lines[..|lines| - 1];
      assert lines == init + [lines[|lines| - 1]];
      Step(Scan(init), lines[|lines| - 1])
  }

  /** The loop's state after `lines`, described by where the markers are:
      reading once a NODE_COORD_SECTION line has been seen, stopped once a
      TOUR_SECTION line follows it, and the section's lines read. */
  ghost function Expected(lines: seq<string>): ScanState
  {
    var k := FirstIndexOf(lines, NodeCoordSection);
    if k == |lines| then ScanState(false, false, [])
    else
      var body := lines[k + 1..];
      ScanState(true, FirstIndexOf(body, TourSection) < |body|, NodeLines(lines))
  }

  /** Appending a line to lines that lack `marker` finds it at the new
      line or not at all. */
  lemma {:induction false} FirstIndexOfSnoc(p: seq<string>, line: string, marker: string)
    requires FirstIndexOf(p, marker) == |p|
    ensures FirstIndexOf(p + [line], marker) == if line == marker then |p| else |p| + 1
  {
    var lines := p + [line];
    forall j | 0 <= j < |p| ensures lines[j] != marker {
      assert lines[j] == p[j];
    }
    FirstIndexOfAt(lines, marker, if line == marker then |p| else |p| + 1);
  }

  lemma {:induction false} ExpectedAtMarker(p: seq<string>)
    requires FirstIndexOf(p, NodeCoordSection) == |p|
    ensures Expected(p + [NodeCoordSection]) == ScanState(true, false, [])
  {
    var lines := p + [NodeCoordSection];
    FirstIndexOfSnoc(p, NodeCoordSection, NodeCoordSection);
    var body := lines[|p| + 1..];
    assert body == [];
    assert NodeLines(lines) == Without(body[..0], NodeCoordSection);
  }

  lemma {:induction false} ExpectedStepBeforeMarker(p: seq<string>, line: string)
    requires FirstIndexOf(p, NodeCoordSection) == |p|
    ensures Expected(p + [line]) == Step(Expected(p), line)
  {
    if line == NodeCoordSection {
      ExpectedAtMarker(p);
    } else {
      FirstIndexOfSnoc(p, line, NodeCoordSection);
    }
  }

  lemma {:induction false} ExpectedStepAfterStop(p: seq<string>, line: string, k: nat)
    requires k == FirstIndexOf(p, NodeCoordSection) < |p|
    requires FirstIndexOf(p[k + 1..], TourSection) < |p[k + 1..]|
    ensures Expected(p + [line]) == Step(Expected(p), line)
  {
    var lines := p + [line];
    FirstIndexOfAt(lines, NodeCoordSection, k);
    var body, body' := p[k + 1..], lines[k + 1..];
    var t := FirstIndexOf(body, TourSection);
    assert body'[..t] == body[..t];
    FirstIndexOfAt(body', TourSection, t);
  }

  lemma {:induction false} ExpectedStepInSection(p: seq<string>, line: string, k: nat)
    requires k == FirstIndexOf(p, NodeCoordSection) < |p|
    requires FirstIndexOf(p[k + 1..], TourSection) == |p[k + 1..]|
    ensures Expected(p + [line]) == Step(Expected(p), line)
  {
    var lines := p + [line];
    FirstIndexOfAt(lines, NodeCoordSection, k);
    var body, body' := p[k + 1..], lines[k + 1..];
    assert body' == body + [line];
    assert body[..|body|] == body;
    WithoutSnoc(body, line, NodeCoordSection);
    if line == TourSection {
      FirstIndexOfAt(body', TourSection, |body|);
    } else {
      FirstIndexOfAt(body', TourSection, |body'|);
      assert body'[..|body'|] == body';
    }
  }

  /** Reading one more line moves the described state as the loop does. */
  lemma {:induction false} ExpectedStep(p: seq<string>, line: string)
    ensures Expected(p + [line]) == Step(Expected(p), line)
  {
    var k := FirstIndexOf(p, NodeCoordSection);
    if k == |p| {
      ExpectedStepBeforeMarker(p, line);
    } else if FirstIndexOf(p[k + 1..], TourSection) < |p[k + 1..]| {
      ExpectedStepAfterStop(p, line, k);
    } else {
      ExpectedStepInSection(p, line, k);
    }
  }

  /** The loop run over any lines ends in the state the markers describe;
      in particular it reads exactly NodeLines. */
  lemma {:induction false} ScanMatchesExpected(lines: seq<string>)
    ensures Scan(lines) == Expected(lines)
    ensures Scan(lines).records == NodeLines(lines)
    decreases |lines|
  {
    if lines != [] {
      var p, line := lines[..|lines| - 1], lines[|lines| - 1];
      ScanMatchesExpected(p);
      ExpectedStep(p, line);
      assert lines == p + [line];
    }
  }

  /** After the loop has stopped, the remaining lines change nothing. */
  lemma {:induction false} ScanAfterStop(lines: seq<string>, i: nat)
    requires i <= |lines| && Scan(lines[..i]).stopped
    ensures Scan(lines) == Scan(lines[..i])
    decreases |lines| - i
  {
    if i < |lines| {
      assert lines[..i + 1][..i] == lines[..i];
      ScanAfterStop(lines, i + 1);
    } else {
      assert lines[..i] == lines;
    }
  }

  /** parseTSPFile once the file is open: walks the lines with the
      `readingNodes` flag and parses every record line into a city. */
  method ParseTSPLines(lines: seq<string>, parseLine: string -> City) returns (cities: seq<City>)
    ensures cities == ParseEach(parseLine, NodeLines(lines))
  {
    cities := [];
    var readingNodes := false;
    var i := 0;
    ghost var records: seq<string> := [];
    ghost var stopped := false;
    while i < |lines|
      invariant 0 <= i <= |lines|
      invariant Scan(lines[..i]) == ScanState(readingNodes, false, records)
      invariant cities == ParseEach(parseLine, records)
    {
      var line := lines[i];
      assert lines[..i + 1][..i] == lines[..i];
      i := i + 1;

      if line == NodeCoordSection {
        readingNodes := true;
        continue;
      }

      if readingNodes && line == TourSection {
        ScanAfterStop(lines, i);
        stopped := true;
        break;
      }

      if readingNodes {
        ParseEachSnoc(parseLine, records, line);
        records := records + [line];
        cities := cities + [parseLine(line)];
      }
    }
    if !stopped {
      assert lines[..i] == lines;
    }
    ScanMatchesExpected(lines);
  }

  /** A file without a NODE_COORD_SECTION line has no records. */
  lemma {:induction false} NoMarkerNoRecords(lines: seq<string>)
    requires NodeCoordSection !in lines
    ensures NodeLines(lines) == []
  {
    assert lines[..|lines|] == lines;
    FirstIndexOfAt(lines, NodeCoordSection, |lines|);
  }

  /** Header lines before the first NODE_COORD_SECTION line, a TOUR_SECTION
      line among them included, are ignored. */
  lemma {:induction false} HeaderIgnored(header: seq<string>, body: seq<string>)
    requires NodeCoordSection !in header
    ensures NodeLines(header + [NodeCoordSection] + body) == NodeLines([NodeCoordSection] + body)
  {
    var lines := header + [NodeCoordSection] + body;
    assert lines[..|header|] == header;
    FirstIndexOfAt(lines, NodeCoordSection, |header|);
    FirstIndexOfAt([NodeCoordSection] + body, NodeCoordSection, 0);
    assert lines[|header| + 1..] == body == ([NodeCoordSection] + body)[1..];
  }

  /** Nothing after a TOUR_SECTION line that ends the section is read. */
  lemma {:induction false} StopsAtTourSection(lines: seq<string>, rest: seq<string>)
    requires NodeCoordSection in lines
    ensures NodeLines(lines + [TourSection] + rest) == NodeLines(lines)
  {
    var all := lines + [TourSection] + rest;
    var k := FirstIndexOf(lines, NodeCoordSection);
    assert k < |lines|;
    assert all[..k] == lines[..k];
    FirstIndexOfAt(all, NodeCoordSection, k);
    var body, body' := lines[k + 1..], all[k + 1..];
    assert body' == body + [TourSection] + rest;
    var t := FirstIndexOf(body, TourSection);
    assert body'[..t] == body[..t];
    FirstIndexOfAt(body', TourSection, t);
  }

  /** Every record line is neither section marker. */
  lemma {:induction false} RecordsAreNotMarkers(lines: seq<string>)
    ensures NodeCoordSection !in NodeLines(lines)
    ensures TourSection !in NodeLines(lines)
  {
    var k := FirstIndexOf(lines, NodeCoordSection);
    if k < |lines| {
      var body := lines[k + 1..];
      var part := body[..FirstIndexOf(body, TourSection)];
      if NodeCoordSection in NodeLines(lines) {
        WithoutKeeps(part, NodeCoordSection, NodeCoordSection);
      }
      if TourSection in NodeLines(lines) {
        WithoutKeeps(part, NodeCoordSection, TourSection);
      }
    }
  }

  /** A header, two records and a tour section: exactly the two records
      are read. */
  lemma {:induction false} TwoRecordExample()
    ensures NodeLines(["NAME: square", NodeCoordSection, "1 0.0 0.0", "2 1.0 0.0", TourSection, "1", "2"])
         == ["1 0.0 0.0", "2 1.0 0.0"]
  {
    var lines := ["NAME: square", NodeCoordSection, "1 0.0 0.0", "2 1.0 0.0", TourSection, "1", "2"];
    assert lines[..1] == ["NAME: square"];
    FirstIndexOfAt(lines, NodeCoordSection, 1);
    var body := lines[2..];
    assert body[..2] == ["1 0.0 0.0", "2 1.0 0.0"];
    FirstIndexOfAt(body, TourSection, 2);
    assert ["1 0.0 0.0", "2 1.0 0.0"][..1] == ["1 0.0 0.0"];
    assert Without(["1 0.0 0.0"], NodeCoordSection) == ["1 0.0 0.0"] by {
      assert ["1 0.0 0.0"][..0] == [];
    }
  }
}
