/** Reading the GPS trace: the text is cut into lines at `\n`, each line into
    parts at `,`. A line without a comma opens a new trip (except the very
    first line); a line with commas is one record of the current trip. */
module GpsTrace {
  import opened Wrappers
  import opened Text
  import opened Fields

  /** A latitude or longitude: the text of a float literal, or the `0.0` that
      replaces an unparsable field. The floating-point value is not modelled. */
  datatype Coordinate = Parsed(literal: string) | ZeroDefault

  /** One record of the trace (`GPSData`). */
  datatype GpsData = GpsData(
    timestamp: U32,
    latitude: Coordinate,
    longitude: Coordinate,
    letter: string,
    numbers: seq<I32>)

  /** Why a record line aborts the run: a part index past the end of the
      line, or a part that is not an integer of the expected width. */
  datatype FieldError = MissingPart(index: nat) | NotAnInteger(index: nat)

  /** The record line (counted from 0) that aborts the run, and why. */
  datatype LineError = LineError(line: nat, error: FieldError)

  /** A classified line: a comma-less line, or a parsed record. */
  datatype Line = Separator | Record(data: GpsData)

  const FIELDS := 13

  /** `s.parse::<f64>().unwrap_or(0_f64)`. */
  function ParseCoordinate(s: string): (c: Coordinate)
    ensures c == ZeroDefault <==> !IsFloatLiteral(s)
    ensures c.Parsed? ==> c.literal == s
  {
    if IsFloatLiteral(s) then Parsed(s) else ZeroDefault
  }

  /** The status fields `parts[k..13]`, parsed left to right as `i32`; the
      first part that is missing or not an integer stops the parse. */
  function ParseNumbers(parts: seq<string>, k: nat): (r: Result<seq<I32>, FieldError>)
    requires 4 <= k <= FIELDS
    ensures r.Success? <==>
      (k < FIELDS ==> |parts| >= FIELDS) && forall j :: k <= j < FIELDS && j < |parts| ==> ParseI32(parts[j]).Some?
    ensures r.Success? ==>
      |r.value| == FIELDS - k
      && forall i :: 0 <= i < FIELDS - k && k + i < |parts| ==> Some(r.value[i]) == ParseI32(parts[k + i])
    ensures r.Failure? ==> exists j :: k <= j < FIELDS && FirstBad(parts, k, j) && r.error == FirstBadPart(parts, j)
    decreases FIELDS - k
  {
    if k == FIELDS then Success([])
    else if k >= |parts| then
      assert FirstBad(parts, k, k);
      Failure(MissingPart(k))
    else if ParseI32(parts[k]).None? then
      assert FirstBad(parts, k, k);
      Failure(NotAnInteger(k))
    else
      match ParseNumbers(parts, k + 1)
      case Failure(e) =>
        var j :| k + 1 <= j < FIELDS && FirstBad(parts, k + 1, j) && e == FirstBadPart(parts, j);
        FirstBadStep(parts, k, j);
        Failure(e)
      case Success(ns) =>
        var r := [ParseI32(parts[k]).value] + ns;
        assert forall i :: 1 <= i < |r| ==> r[i] == ns[i - 1];
        Success(r)
  }

  /** Part `j` is the first of `parts[k..]` that is missing or not an `i32`:
      the parts before it are present and parse. */
  predicate FirstBad(parts: seq<string>, k: nat, j: nat)
  {
    && (j == k || j <= |parts|)
    && (forall m :: k <= m < j ==> ParseI32(parts[m]).Some?)
    && (j < |parts| ==> ParseI32(parts[j]).None?)
  }

  lemma FirstBadStep(parts: seq<string>, k: nat, j: nat)
    requires k < |parts| && ParseI32(parts[k]).Some? && k + 1 <= j
    requires FirstBad(parts, k + 1, j)
    ensures FirstBad(parts, k, j)
  {
    forall m | k <= m < j
      ensures ParseI32(parts[m]).Some?
    {
      if m > k {
        assert k + 1 <= m < j;
      }
    }
  }

  /** The error reported for part `j` when it is the first bad one. */
  function FirstBadPart(parts: seq<string>, j: nat): FieldError
  {
    if j >= |parts| then MissingPart(j) else NotAnInteger(j)
  }

  /** One record line (at least two parts), in the order the source evaluates
      it: the timestamp, then the indexing of parts 2 and 3 (whose parse
      cannot fail), then parts 4 to 12. Parts from 13 on are never looked at. */
  function ParseRecord(parts: seq<string>): (r: Result<GpsData, FieldError>)
    requires |parts| > 1
    ensures r.Success? <==>
      && |parts| >= FIELDS
      && ParseU32(parts[0]).Some?
      && forall j :: 4 <= j < FIELDS && j < |parts| ==> ParseI32(parts[j]).Some?
    ensures r.Success? ==>
      && r.value.timestamp == ParseU32(parts[0]).value
      && r.value.letter == parts[1]
      && r.value.latitude == ParseCoordinate(parts[2])
      && r.value.longitude == ParseCoordinate(parts[3])
      && |r.value.numbers| == 9
      && forall i :: 0 <= i < 9 ==> Some(r.value.numbers[i]) == ParseI32(parts[4 + i])
  {
    if ParseU32(parts[0]).None? then Failure(NotAnInteger(0))
    else if |parts| <= 2 then Failure(MissingPart(2))
    else if |parts| <= 3 then Failure(MissingPart(3))
    else
      match ParseNumbers(parts, 4)
      case Failure(e) => Failure(e)
      case Success(ns) =>
        Success(GpsData(ParseU32(parts[0]).value, ParseCoordinate(parts[2]), ParseCoordinate(parts[3]), parts[1], ns))
  }

  /** A record line with 2 to 12 parts always aborts: with a bad timestamp on
      part 0, otherwise on the first part that is missing or not an `i32`. */
  lemma ShortRecordAborts(parts: seq<string>)
    requires 2 <= |parts| < FIELDS
    ensures ParseRecord(parts).Failure?
    ensures ParseU32(parts[0]).None? ==> ParseRecord(parts).error == NotAnInteger(0)
    ensures ParseU32(parts[0]).Some? && |parts| == 2 ==> ParseRecord(parts).error == MissingPart(2)
    ensures ParseU32(parts[0]).Some? && |parts| == 3 ==> ParseRecord(parts).error == MissingPart(3)
    ensures ParseU32(parts[0]).Some? && |parts| >= 4 ==>
      exists j :: 4 <= j <= |parts| && FirstBad(parts, 4, j) && ParseRecord(parts).error == FirstBadPart(parts, j)
  {
    if ParseU32(parts[0]).Some? && |parts| >= 4 {
      var r := ParseNumbers(parts, 4);
      assert r.Failure? && ParseRecord(parts) == Failure(r.error);
      var j :| 4 <= j < FIELDS && FirstBad(parts, 4, j) && r.error == FirstBadPart(parts, j);
      assert j <= |parts|;
    }
  }

  /** The timestamp and the nine status fields must be integers; a bad
      latitude or longitude, by contrast, is replaced by `0.0`. */
  lemma FieldHandling(parts: seq<string>)
    requires |parts| >= FIELDS
    ensures ParseU32(parts[0]).None? ==> ParseRecord(parts) == Failure(NotAnInteger(0))
    ensures ParseRecord(parts).Success? && !IsFloatLiteral(parts[2]) ==>
      ParseRecord(parts).value.latitude == ZeroDefault
    ensures ParseRecord(parts).Success? && !IsFloatLiteral(parts[3]) ==>
      ParseRecord(parts).value.longitude == ZeroDefault
    ensures ParseU32(parts[0]).Some? && (forall j :: 4 <= j < FIELDS ==> ParseI32(parts[j]).Some?) ==>
      ParseRecord(parts).Success?
  {
  }

  /** Parts beyond index 12 are ignored. */
  lemma {:induction false} ExtraPartsIgnored(parts: seq<string>, extra: seq<string>)
    requires |parts| == FIELDS
    ensures ParseRecord(parts + extra) == ParseRecord(parts)
  {
    var all := parts + extra;
    assert forall j :: 0 <= j < FIELDS ==> all[j] == parts[j];
    ParseNumbersPrefix(parts, extra, 4);
  }

  lemma {:induction false} ParseNumbersPrefix(parts: seq<string>, extra: seq<string>, k: nat)
    requires |parts| == FIELDS && 4 <= k <= FIELDS
    ensures ParseNumbers(parts + extra, k) == ParseNumbers(parts, k)
    decreases FIELDS - k
  {
    if k < FIELDS {
      assert (parts + extra)[k] == parts[k];
      ParseNumbersPrefix(parts, extra, k + 1);
    }
  }

  /** A line, at position `n` of the trace: a comma-less line is a separator
      candidate, any other line must parse as a record. */
  function ClassifyLine(line: string, n: nat): (r: Result<Line, LineError>)
    ensures r == Success(Separator) <==> ',' !in line
    ensures r.Failure? ==> r.error.line == n
    ensures ',' in line ==>
      && (r.Success? <==> LineRecord(line).Success?)
      && (r.Success? ==> r.value == Record(LineRecord(line).value))
      && (r.Failure? ==> r.error == LineError(n, LineRecord(line).error))
  {
    var parts := Split(line, ',');
    assert ',' !in line <==> Count(line, ',') == 0 by {
      CountZero(line, ',');
    }
    if |parts| == 1 then Success(Separator)
    else
      match ParseRecord(parts)
      case Failure(e) => Failure(LineError(n, e))
      case Success(d) => Success(Record(d))
  }

  /** The record a line with a comma parses to, or why it does not. */
  function LineRecord(line: string): Result<GpsData, FieldError>
    requires ',' in line
  {
    CountZero(line, ',');
    ParseRecord(Split(line, ','))
  }

  lemma {:induction false} CountZero(s: string, c: char)
    ensures Count(s, c) == 0 <==> c !in s
  {
    if s != [] {
      CountZero(s[1..], c);
      assert s == [s[0]] + s[1..];
    }
  }

  /** The outcome of classifying each line, in order. */
  function Outcomes(lines: seq<string>): (rs: seq<Result<Line, LineError>>)
    ensures |rs| == |lines|
    ensures forall n :: 0 <= n < |lines| ==> rs[n] == ClassifyLine(lines[n], n)
  {
    seq(|lines|, n requires 0 <= n < |lines| => ClassifyLine(lines[n], n))
  }

  /** All the values, or the first failure. */
  function Collect<T, E>(rs: seq<Result<T, E>>): Result<seq<T>, E>
  {
    if rs == [] then Success([])
    else
      match Collect(rs[..|rs| - 1])
      case Failure(e) => Failure(e)
      case Success(vs) =>
        match rs[|rs| - 1]
        case Failure(e) => Failure(e)
        case Success(v) => Success(vs + [v])
  }

  /** Element by element: every outcome a success, or else the error is that
      of the first failure. */
  lemma {:induction false} CollectElements<T, E>(rs: seq<Result<T, E>>)
    ensures Collect(rs).Success? ==>
      |Collect(rs).value| == |rs| && forall n :: 0 <= n < |rs| ==> rs[n] == Success(Collect(rs).value[n])
    ensures Collect(rs).Failure? ==>
      exists n :: 0 <= n < |rs| && rs[n] == Failure(Collect(rs).error)
        && forall m :: 0 <= m < n ==> rs[m].Success?
  {
    if rs != [] {
      var init := rs[..|rs| - 1];
      CollectElements(init);
      assert forall m :: 0 <= m < |init| ==> init[m] == rs[m];
      match Collect(init)
      case Failure(e) =>
      case Success(vs) =>
        match rs[|rs| - 1]
        case Failure(e) =>
        case Success(v) =>
          assert forall m :: 0 <= m < |vs| ==> (vs + [v])[m] == vs[m];
    }
  }

  /** A failure at `n` after successes only is the error of the whole sequence. */
  lemma CollectFirstFailure<T, E>(rs: seq<Result<T, E>>, n: nat)
    requires n < |rs| && rs[n].Failure?
    requires forall m :: 0 <= m < n ==> rs[m].Success?
    ensures Collect(rs) == Failure(rs[n].error)
  {
    CollectElements(rs);
    assert Collect(rs).Failure?;
    var j :| 0 <= j < |rs| && rs[j] == Failure(Collect(rs).error) && forall m :: 0 <= m < j ==> rs[m].Success?;
    assert !(j < n) && !(n < j);
  }

  /** All lines classified, or the error of the first line that aborts. */
  function Classify(lines: seq<string>): Result<seq<Line>, LineError>
  {
    Collect(Outcomes(lines))
  }

  /** The trips after one more line: a separator opens a new, empty trip
      unless it is the first line, and a record joins the last trip. */
  function AddLine(trips: seq<seq<GpsData>>, l: Line, firstLine: bool): (trips': seq<seq<GpsData>>)
    requires |trips| >= 1
    ensures |trips'| >= |trips|
    ensures trips'[..|trips| - 1] == trips[..|trips| - 1]
    ensures l.Record? ==> |trips'| == |trips| && trips'[|trips| - 1] == trips[|trips| - 1] + [l.data]
    ensures l.Separator? && firstLine ==> trips' == trips
    ensures l.Separator? && !firstLine ==> |trips'| == |trips| + 1 && trips'[..|trips|] == trips && trips'[|trips|] == []
  {
    match l
    case Separator => if firstLine then trips else trips + [[]]
    case Record(d) => trips[|trips| - 1 := trips[|trips| - 1] + [d]]
  }

  /** The trips, built line by line from a single empty one. */
  function Group(ls: seq<Line>): (trips: seq<seq<GpsData>>)
    ensures |trips| >= 1
  {
    if ls == [] then [[]]
    else AddLine(Group(ls[..|ls| - 1]), ls[|ls| - 1], |ls| == 1)
  }

  /** Separators that open a trip: those at position 1 or later. */
  function Openers(ls: seq<Line>): nat
  {
    if |ls| <= 1 then 0
    else Openers(ls[..|ls| - 1]) + (if ls[|ls| - 1].Separator? then 1 else 0)
  }

  /** The records of the trace, in order. */
  function Records(ls: seq<Line>): seq<GpsData>
  {
    if ls == [] then []
    else Records(ls[..|ls| - 1]) + (if ls[|ls| - 1].Record? then [ls[|ls| - 1].data] else [])
  }

  /** The trips laid end to end. */
  function Flatten(trips: seq<seq<GpsData>>): seq<GpsData>
  {
    if trips == [] then [] else Flatten(trips[..|trips| - 1]) + trips[|trips| - 1]
  }

  /** There is one trip more than there are opening separators. */
  lemma {:induction false} GroupCount(ls: seq<Line>)
    ensures |Group(ls)| == 1 + Openers(ls)
  {
    if ls != [] {
      GroupCount(ls[..|ls| - 1]);
    }
  }

  /** Every record lands in some trip, in file order, and nothing else does. */
  lemma {:induction false} GroupFlatten(ls: seq<Line>)
    ensures Flatten(Group(ls)) == Records(ls)
  {
    if ls != [] {
      var pre := ls[..|ls| - 1];
      var g := Group(pre);
      GroupFlatten(pre);
      assert Group(ls) == AddLine(g, ls[|ls| - 1], |ls| == 1);
      match ls[|ls| - 1]
      case Separator =>
        if |ls| > 1 {
          FlattenSnoc(g, []);
        }
        assert Records(ls) == Records(pre);
      case Record(d) =>
        var m := |g| - 1;
        assert g == g[..m] + [g[m]];
        assert Group(ls) == g[..m] + [g[m] + [d]];
        FlattenSnoc(g[..m], g[m]);
        FlattenSnoc(g[..m], g[m] + [d]);
        assert Records(ls) == Records(pre) + [d];
        assert Flatten(g[..m]) + (g[m] + [d]) == Flatten(g[..m]) + g[m] + [d];
    }
  }

  lemma FlattenSnoc(g: seq<seq<GpsData>>, t: seq<GpsData>)
    ensures Flatten(g + [t]) == Flatten(g) + t
  {
    assert (g + [t])[..|g|] == g;
  }

  /** Without a separator after the first line, the single trip is every record. */
  lemma SingleTrip(ls: seq<Line>)
    requires Openers(ls) == 0
    ensures Group(ls) == [Records(ls)]
  {
    GroupCount(ls);
    GroupFlatten(ls);
    var g := Group(ls);
    assert g[..0] == [];
    assert Flatten(g) == Flatten(g[..0]) + g[0];
  }

  /** Reading more lines never changes a finished trip and only extends the
      trip being read. */
  lemma {:induction false} GroupPrefix(ls: seq<Line>, n: nat)
    requires n <= |ls|
    ensures var g, h := Group(ls[..n]), Group(ls);
      |g| <= |h| && h[..|g| - 1] == g[..|g| - 1] && g[|g| - 1] <= h[|g| - 1]
    decreases |ls|
  {
    if n == |ls| {
      assert ls[..n] == ls;
    } else {
      var m := |ls| - 1;
      var pre := ls[..m];
      assert pre[..n] == ls[..n];
      GroupPrefix(pre, n);
      var g, h', h := Group(ls[..n]), Group(pre), Group(ls);
      assert h == AddLine(h', ls[m], |ls| == 1);
      var i := |g| - 1;
      var j := |h'| - 1;
      assert h[..i] == h[..j][..i] && h'[..i] == h'[..j][..i];
      assert h'[i] <= h[i] by {
        if i < j {
          assert h[i] == h[..j][i];
        }
      }
      PrefixTrans(g[i], h'[i], h[i]);
    }
  }

  lemma PrefixTrans(a: seq<GpsData>, b: seq<GpsData>, c: seq<GpsData>)
    requires a <= b && b <= c
    ensures a <= c
  {
    assert c[..|a|] == b[..|a|];
  }

  /** A record line lands in the trip opened by the last separator before
      it: trip number `Openers(ls[..n + 1])`. */
  lemma RecordTrip(ls: seq<Line>, n: nat)
    requires n < |ls| && ls[n].Record?
    ensures var i := Openers(ls[..n + 1]); i < |Group(ls)| && ls[n].data in Group(ls)[i]
  {
    var upto := ls[..n + 1];
    assert upto[..n] == ls[..n];
    var g := Group(upto);
    GroupCount(upto);
    GroupPrefix(ls, n + 1);
    assert g == AddLine(Group(ls[..n]), ls[n], n == 0);
    var i := |g| - 1;
    assert ls[n].data in g[i];
    assert g[i] <= Group(ls)[i];
  }

  /** The trace as `extract_gps_data` returns it, or the error it aborts with.
      A trace always has a trip, so `main`'s `gps_trips.len() - 1` does not
      underflow. */
  function Segment(content: string): (r: Result<seq<seq<GpsData>>, LineError>)
    ensures r.Success? ==> |r.value| >= 1
  {
    match Classify(Split(content, '\n'))
    case Failure(e) => Failure(e)
    case Success(ls) => Success(Group(ls))
  }

  /** Comma-less lines after the first one. */
  function TextOpeners(lines: seq<string>): nat
  {
    if |lines| <= 1 then 0
    else TextOpeners(lines[..|lines| - 1]) + (if ',' !in lines[|lines| - 1] then 1 else 0)
  }

  /** The records parsed from the lines with a comma, in order. */
  function TextRecords(lines: seq<string>): seq<GpsData>
  {
    if lines == [] then []
    else
      var last := lines[|lines| - 1];
      TextRecords(lines[..|lines| - 1]) + (if ',' in last && LineRecord(last).Success? then [LineRecord(last).value] else [])
  }

  /** `extract_gps_data` on the text itself: it succeeds exactly when every
      line with a comma parses as a record; then there is one trip more than
      there are comma-less lines after the first, and the trips laid end to
      end are the records of the comma lines in file order; otherwise the
      error is that of the first comma line that does not parse. */
  lemma SegmentText(content: string)
    ensures var lines := Split(content, '\n');
      && (Segment(content).Success? <==>
            forall n :: 0 <= n < |lines| && ',' in lines[n] ==> LineRecord(lines[n]).Success?)
      && (Segment(content).Success? ==>
            && |Segment(content).value| == 1 + TextOpeners(lines)
            && Flatten(Segment(content).value) == TextRecords(lines))
      && (Segment(content).Success? ==>
            forall n :: 0 <= n < |lines| && ',' in lines[n] ==>
              var i := TextOpeners(lines[..n + 1]);
              && LineRecord(lines[n]).Success? && i < |Segment(content).value|
              && LineRecord(lines[n]).value in Segment(content).value[i])
      && (Segment(content).Failure? ==>
            var k := FirstBadLine(lines);
            k < |lines| && Segment(content).error == LineError(k, LineRecord(lines[k]).error))
  {
    SegmentSucceeds(content);
    SegmentTrips(content);
    SegmentFails(content);
  }

  /** The record of comma line `n` is in trip number `TextOpeners(lines[..n + 1])`:
      the trip opened by the last comma-less line before it. */
  lemma SegmentTrips(content: string)
    ensures var lines := Split(content, '\n');
      Segment(content).Success? ==>
        forall n :: 0 <= n < |lines| && ',' in lines[n] ==>
          var i := TextOpeners(lines[..n + 1]);
          && LineRecord(lines[n]).Success? && i < |Segment(content).value|
          && LineRecord(lines[n]).value in Segment(content).value[i]
  {
    var lines := Split(content, '\n');
    if Classify(lines).Success? {
      var ls := Classify(lines).value;
      assert Segment(content) == Success(Group(ls));
      forall n | 0 <= n < |lines| && ',' in lines[n]
        ensures var i := TextOpeners(lines[..n + 1]);
          && LineRecord(lines[n]).Success? && i < |Group(ls)|
          && LineRecord(lines[n]).value in Group(ls)[i]
      {
        LineTrip(lines, ls, n);
      }
    }
  }

  /** `SegmentTrips` for one comma line `n` of lines classified as `ls`. */
  lemma LineTrip(lines: seq<string>, ls: seq<Line>, n: nat)
    requires Classify(lines) == Success(ls) && n < |lines| && ',' in lines[n]
    ensures var i := TextOpeners(lines[..n + 1]);
      && LineRecord(lines[n]).Success? && i < |Group(ls)|
      && LineRecord(lines[n]).value in Group(ls)[i]
  {
    ClassifiedMatch(lines, ls);
    assert LineMatches(lines[n], ls[n]);
    var lp, sp := lines[..n + 1], ls[..n + 1];
    assert forall m :: 0 <= m < |lp| ==> lp[m] == lines[m] && sp[m] == ls[m];
    ClassifiedOpeners(lp, sp);
    RecordTrip(ls, n);
  }

  lemma SegmentSucceeds(content: string)
    ensures var lines := Split(content, '\n');
      Segment(content).Success? ==>
        && (forall n :: 0 <= n < |lines| && ',' in lines[n] ==> LineRecord(lines[n]).Success?)
        && |Segment(content).value| == 1 + TextOpeners(lines)
        && Flatten(Segment(content).value) == TextRecords(lines)
  {
    var lines := Split(content, '\n');
    if Classify(lines).Success? {
      var ls := Classify(lines).value;
      assert Segment(content) == Success(Group(ls));
      ClassifiedMatch(lines, ls);
      ClassifiedOpeners(lines, ls);
      ClassifiedRecords(lines, ls);
      GroupCount(ls);
      GroupFlatten(ls);
    }
  }

  lemma SegmentFails(content: string)
    ensures var lines := Split(content, '\n');
      Segment(content).Failure? ==>
        var k := FirstBadLine(lines);
        k < |lines| && Segment(content).error == LineError(k, LineRecord(lines[k]).error)
  {
    var lines := Split(content, '\n');
    var rs := Outcomes(lines);
    if Classify(lines).Failure? {
      assert Segment(content) == Failure(Classify(lines).error);
      var n := FirstFailure(rs);
      var k := FirstBadLine(lines);
      assert rs[n] == ClassifyLine(lines[n], n);
      assert ',' in lines[n] && LineRecord(lines[n]).Failure?;
      assert k <= n;
      assert k < |lines| ==> rs[k] == ClassifyLine(lines[k], k);
      assert k == n;
    }
  }

  /** The first line with a comma that does not parse as a record, or
      `|lines|` when there is none. */
  function FirstBadLine(lines: seq<string>): (k: nat)
    ensures k <= |lines|
    ensures forall m :: 0 <= m < k && ',' in lines[m] ==> LineRecord(lines[m]).Success?
    ensures k < |lines| ==> ',' in lines[k] && LineRecord(lines[k]).Failure?
  {
    var bad := seq(|lines|, m requires 0 <= m < |lines| => BadLine(lines[m]));
    var k := FirstTrue(bad, 0);
    assert forall m :: 0 <= m < k ==> bad[m] == BadLine(lines[m]) && !bad[m];
    k
  }

  /** The first index at or after `i` that holds `true`, or `|bs|`. */
  function FirstTrue(bs: seq<bool>, i: nat): (k: nat)
    requires i <= |bs|
    ensures i <= k <= |bs|
    ensures forall m :: i <= m < k ==> !bs[m]
    ensures k < |bs| ==> bs[k]
    decreases |bs| - i
  {
    if i == |bs| || bs[i] then i else FirstTrue(bs, i + 1)
  }

  /** A line with a comma that does not parse as a record. */
  predicate BadLine(line: string)
  {
    ',' in line && LineRecord(line).Failure?
  }

  /** The position of the failure `Collect` reports. */
  lemma FirstFailure<T, E>(rs: seq<Result<T, E>>) returns (n: nat)
    requires Collect(rs).Failure?
    ensures n < |rs| && rs[n] == Failure(Collect(rs).error)
    ensures forall m :: 0 <= m < n ==> rs[m].Success?
  {
    CollectElements(rs);
    n :| 0 <= n < |rs| && rs[n] == Failure(Collect(rs).error) && forall m :: 0 <= m < n ==> rs[m].Success?;
  }

  /** Every line classified successfully agrees with its text. */
  lemma ClassifiedMatch(lines: seq<string>, ls: seq<Line>)
    requires Classify(lines) == Success(ls)
    ensures |ls| == |lines| && forall n :: 0 <= n < |lines| ==> LineMatches(lines[n], ls[n])
    ensures forall n :: 0 <= n < |lines| && ',' in lines[n] ==> LineRecord(lines[n]).Success?
    ensures forall n :: 0 <= n < |lines| ==> (ls[n] == Separator <==> ',' !in lines[n])
  {
    var rs := Outcomes(lines);
    CollectElements(rs);
    forall n | 0 <= n < |lines|
      ensures LineMatches(lines[n], ls[n])
    {
      assert rs[n] == Success(ls[n]);
      LineFacts(lines[n], n, ls[n]);
    }
  }

  /** The classified line `l` agrees with the text of `line`. */
  ghost predicate LineMatches(line: string, l: Line)
  {
    && (l == Separator <==> ',' !in line)
    && (l.Record? ==> ',' in line && LineRecord(line) == Success(l.data))
  }

  lemma LineFacts(line: string, n: nat, l: Line)
    requires ClassifyLine(line, n) == Success(l)
    ensures LineMatches(line, l)
  {
  }

  /** Lines classified one by one into `ls` open as many trips as the text says. */
  lemma {:induction false} ClassifiedOpeners(lines: seq<string>, ls: seq<Line>)
    requires |ls| == |lines|
    requires forall n :: 0 <= n < |lines| ==> (ls[n] == Separator <==> ',' !in lines[n])
    ensures Openers(ls) == TextOpeners(lines)
    decreases |lines|
  {
    if lines != [] {
      var m := |lines| - 1;
      var lines', ls' := lines[..m], ls[..m];
      assert forall n :: 0 <= n < |lines'| ==> lines'[n] == lines[n] && ls'[n] == ls[n];
      ClassifiedOpeners(lines', ls');
    }
  }

  /** Lines classified one by one into `ls` hold the records the text says. */
  lemma {:induction false} ClassifiedRecords(lines: seq<string>, ls: seq<Line>)
    requires |ls| == |lines|
    requires forall n :: 0 <= n < |lines| ==> LineMatches(lines[n], ls[n])
    ensures Records(ls) == TextRecords(lines)
    decreases |lines|
  {
    if lines != [] {
      var m := |lines| - 1;
      var lines', ls' := lines[..m], ls[..m];
      forall n | 0 <= n < |lines'| ensures LineMatches(lines'[n], ls'[n]) {
        assert lines'[n] == lines[n] && ls'[n] == ls[n];
      }
      ClassifiedRecords(lines', ls');
      assert LineMatches(lines[m], ls[m]);
    }
  }

  /** A trace that ends in `\n` ends in an empty trip, which later has no frames. */
  lemma TrailingNewlineOpensEmptyTrip(content: string)
    requires Segment(content + "\n").Success?
    ensures var trips := Segment(content + "\n").value; |trips| >= 2 && trips[|trips| - 1] == []
  {
    SplitTrailingSeparator(content, '\n');
    var lines := Split(content + "\n", '\n');
    assert |lines| >= 2 && lines[|lines| - 1] == [];
    var rs := Outcomes(lines);
    CollectElements(rs);
    var ls := Classify(lines).value;
    assert rs[|lines| - 1] == Success(Separator);
    assert ls[|ls| - 1] == Separator;
  }

  /** Classifying one more line extends the classification or fails with it. */
  lemma CollectSnoc<T, E>(rs: seq<Result<T, E>>, n: nat)
    requires n < |rs| && Collect(rs[..n]).Success?
    ensures rs[n].Success? ==> Collect(rs[..n + 1]) == Success(Collect(rs[..n]).value + [rs[n].value])
    ensures rs[n].Failure? ==> Collect(rs) == Failure(rs[n].error)
  {
    assert rs[..n + 1][..n] == rs[..n];
    if rs[n].Failure? {
      CollectElements(rs[..n]);
      assert forall m :: 0 <= m < n ==> rs[..n][m] == rs[m];
      CollectFirstFailure(rs, n);
    }
  }

  /** `Group` one line further is one `AddLine` further. */
  lemma GroupSnoc(ls: seq<Line>, l: Line)
    ensures Group(ls + [l]) == AddLine(Group(ls), l, ls == [])
  {
    var ls' := ls + [l];
    assert ls'[..|ls'| - 1] == ls;
  }

  /** The body of the loop of `extract_gps_data` for line `n`: a comma-less
      line opens a trip unless it is the first, a record joins the current
      trip, and a bad record aborts. */
  method ReadLine(line: string, n: nat, trips: seq<seq<GpsData>>, tripIndex: nat, firstLine: bool)
    returns (trips': seq<seq<GpsData>>, tripIndex': nat, error: Option<LineError>)
    requires |trips| >= 1 && tripIndex == |trips| - 1
    ensures error.Some? <==> ClassifyLine(line, n).Failure?
    ensures error.Some? ==> error.value == ClassifyLine(line, n).error
    ensures error.None? ==> trips' == AddLine(trips, ClassifyLine(line, n).value, firstLine)
    ensures tripIndex' == |trips'| - 1
  {
    trips', tripIndex', error := trips, tripIndex, None;
    var parts := Split(line, ',');
    if |parts| == 1 {
      if !firstLine {
        tripIndex' := tripIndex + 1;
        trips' := trips + [[]];
      }
    } else if |parts| > 1 {
      match ParseRecord(parts)
      case Failure(e) =>
        error := Some(LineError(n, e));
      case Success(d) =>
        trips' := trips[tripIndex := trips[tripIndex] + [d]];
    }
  }

  /** `extract_gps_data` applied to the text of the trace file. */
  method ExtractGpsData(content: string) returns (r: Result<seq<seq<GpsData>>, LineError>)
    ensures r == Segment(content)
  {
    var lines := Split(content, '\n');
    ghost var outcomes := Outcomes(lines);
    ghost var ls: seq<Line> := [];
    var trips: seq<seq<GpsData>> := [[]];
    var firstLine := true;
    var tripIndex := 0;
    assert outcomes[..0] == [];
    for n := 0 to |lines|
      invariant Collect(outcomes[..n]) == Success(ls) && |ls| == n
      invariant trips == Group(ls) && tripIndex == |trips| - 1
      invariant firstLine <==> ls == []
    {
      var error;
      trips, tripIndex, error := ReadLine(lines[n], n, trips, tripIndex, firstLine);
      assert outcomes[n] == ClassifyLine(lines[n], n);
      if error.Some? {
        assert Collect(outcomes) == Failure(error.value) by {
          CollectSnoc(outcomes, n);
        }
        return Failure(error.value);
      }
      var l := outcomes[n].value;
      assert Collect(outcomes[..n + 1]) == Success(ls + [l]) by {
        CollectSnoc(outcomes, n);
      }
      assert trips == Group(ls + [l]) by {
        GroupSnoc(ls, l);
      }
      ls := ls + [l];
      firstLine := false;
    }
    assert outcomes[..|lines|] == outcomes;
    return Success(trips);
  }
}
