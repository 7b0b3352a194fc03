/** The flow-statistics export: turns the `Flow` elements of a flow-monitor
    report into CSV rows (a fixed 13-column header, then one row per flow
    that has a `FlowStats` child) and a console warning for every flow that
    has none. */
module FlowmonCsv {
  import opened Xml

  type Row = seq<string>

  const StatsTag := "FlowStats"
  const FlowIdKey := "flowId"
  /** Written in place of a missing `flowId` attribute. */
  const MissingId := "N/A"
  /** Written in place of a missing statistics attribute. */
  const MissingStat := "0"

  /** The header row, written once before any data row. */
  const Header: Row := [
    "FlowId", "TimeFirstTxPacket", "TimeLastTxPacket", "TimeFirstRxPacket", "TimeLastRxPacket",
    "DelaySum", "JitterSum", "TxBytes", "RxBytes", "TxPackets", "RxPackets", "LostPackets", "PacketLossRatio"
  ]

  /** The `FlowStats` attributes copied into columns 1 to 12, in column order. */
  const StatKeys: seq<string> := [
    "timeFirstTxPacket", "timeLastTxPacket", "timeFirstRxPacket", "timeLastRxPacket",
    "delaySum", "jitterSum", "txBytes", "rxBytes", "txPackets", "rxPackets", "lostPackets", "lostPacketsRatio"
  ]

  /** The columns the anomaly detector reads back from the CSV file. */
  const DetectorFeatures: seq<string> := [
    "DelaySum", "JitterSum", "TxBytes", "RxBytes",
    "TxPackets", "RxPackets", "LostPackets", "PacketLossRatio"
  ]

  /** What one `Flow` element contributes: a data row, or the id it is skipped under. */
  datatype FlowOutcome = Written(row: Row) | Skipped(id: string)

  /** Everything the export produces after the header: the data rows and the ids of skipped flows. */
  datatype Export = Export(rows: seq<Row>, skipped: seq<string>)

  /** The flow's `flowId` attribute, or `N/A` when it has none. */
  function FlowId(flow: Element): (r: string)
    ensures FlowIdKey in flow.attrib ==> r == flow.attrib[FlowIdKey]
    ensures FlowIdKey !in flow.attrib ==> r == MissingId
  {
    AttrGet(flow.attrib, FlowIdKey, MissingId)
  }

  /** The data row of a flow with id `fid` whose `FlowStats` attributes are `stats`.
      Every value is copied as the raw string; nothing is converted to a number. */
  function StatsRow(fid: string, stats: Attributes): (r: Row)
    ensures |r| == |Header| == 1 + |StatKeys|
    ensures r[0] == fid
    ensures forall i :: 0 <= i < |StatKeys| ==>
              r[i + 1] == (if StatKeys[i] in stats then stats[StatKeys[i]] else MissingStat)
  {
    [ fid,
      AttrGet(stats, "timeFirstTxPacket", MissingStat),
      AttrGet(stats, "timeLastTxPacket", MissingStat),
      AttrGet(stats, "timeFirstRxPacket", MissingStat),
      AttrGet(stats, "timeLastRxPacket", MissingStat),
      AttrGet(stats, "delaySum", MissingStat),
      AttrGet(stats, "jitterSum", MissingStat),
      AttrGet(stats, "txBytes", MissingStat),
      AttrGet(stats, "rxBytes", MissingStat),
      AttrGet(stats, "txPackets", MissingStat),
      AttrGet(stats, "rxPackets", MissingStat),
      AttrGet(stats, "lostPackets", MissingStat),
      AttrGet(stats, "lostPacketsRatio", MissingStat) ]
  }

  /** The `stats is not None` test: the flow has a direct `FlowStats` child. */
  predicate HasStats(flow: Element)
    ensures HasStats(flow) <==> exists j :: 0 <= j < |flow.children| && flow.children[j].tag == StatsTag
  {
    Find(flow, StatsTag).Some?
  }

  /** One turn of the export loop, as a value. */
  function ProcessFlow(flow: Element): (o: FlowOutcome)
    ensures o.Written? <==> exists j :: 0 <= j < |flow.children| && flow.children[j].tag == StatsTag
    ensures o.Written? ==> o.row == StatsRow(FlowId(flow), Find(flow, StatsTag).value.attrib)
    ensures o.Skipped? ==> o.id == FlowId(flow)
  {
    match Find(flow, StatsTag)
    case Some(stats) => Written(StatsRow(FlowId(flow), stats.attrib))
    case None => Skipped(FlowId(flow))
  }

  /** The rows and skipped ids after the loop has handled `flows`, in order;
      defined on the last flow, as the loop appends. */
  function Convert(flows: seq<Element>): (r: Export)
    ensures |r.rows| + |r.skipped| == |flows|
    ensures forall k :: 0 <= k < |r.rows| ==> |r.rows[k]| == |Header|
  {
    if |flows| == 0 then Export([], [])
    else
      var prev := Convert(flows[..|flows| - 1]);
      match ProcessFlow(flows[|flows| - 1])
      case Written(row) => Export(prev.rows + [row], prev.skipped)
      case Skipped(id) => Export(prev.rows, prev.skipped + [id])
  }

  /** Number of flows that have a `FlowStats` child. */
  function CountWithStats(flows: seq<Element>): nat
  {
    if |flows| == 0 then 0
    else CountWithStats(flows[..|flows| - 1]) + (if HasStats(flows[|flows| - 1]) then 1 else 0)
  }

  /** The line printed for a flow without statistics. */
  function WarningLine(fid: string): (r: string)
    ensures |r| == |WarningPrefix| + |fid| + |WarningSuffix|
    ensures r[..|WarningPrefix|] == WarningPrefix
    ensures r[|WarningPrefix|..|WarningPrefix| + |fid|] == fid
    ensures r[|WarningPrefix| + |fid|..] == WarningSuffix
  {
    WarningPrefix + fid + WarningSuffix
  }

  const WarningPrefix := "[WARNING] No <FlowStats> found for Flow ID "
  const WarningSuffix := ", skipping."

  /** The flow id a printed warning line carries, if it is one. */
  function WarningId(line: string): (r: Option<string>)
    ensures r.Some? ==> WarningLine(r.value) == line
  {
    if |line| >= |WarningPrefix| + |WarningSuffix|
       && line[..|WarningPrefix|] == WarningPrefix
       && line[|line| - |WarningSuffix|..] == WarningSuffix
    then
      var fid := line[|WarningPrefix|..|line| - |WarningSuffix|];
      assert line == WarningPrefix + fid + WarningSuffix by {
        assert line == line[..|WarningPrefix|] + fid + line[|line| - |WarningSuffix|..];
      }
      Some(fid)
    else None
  }

  /** The console output for the given skipped ids, one line each. */
  function WarningLines(ids: seq<string>): (r: seq<string>)
    ensures |r| == |ids|
    ensures forall k :: 0 <= k < |ids| ==> r[k] == WarningLine(ids[k])
  {
    seq(|ids|, k requires 0 <= k < |ids| => WarningLine(ids[k]))
  }

  /** The export loop: write the header, then for each flow either write its
      statistics row or print a warning. Returns the CSV rows written, in
      order, and the lines printed. */
  method WriteCsv(flows: seq<Element>) returns (csv: seq<Row>, console: seq<string>)
    ensures |csv| == 1 + CountWithStats(flows)
    ensures csv[0] == Header
    ensures csv[1..] == Convert(flows).rows
    ensures console == WarningLines(Convert(flows).skipped)
  {
    csv := [Header];
    console := [];
    for i := 0 to |flows|
      invariant |csv| >= 1 && csv[0] == Header
      invariant csv[1..] == Convert(flows[..i]).rows
      invariant console == WarningLines(Convert(flows[..i]).skipped)
    {
      var fid := AttrGet(flows[i].attrib, FlowIdKey, MissingId);
      var stats := Find(flows[i], StatsTag);
      if stats.Some? {
        WrittenStep(flows, i, csv);
        csv := csv + [StatsRow(fid, stats.value.attrib)];
      } else {
        SkippedStep(flows, i);
        console := console + [WarningLine(fid)];
      }
    }
    assert flows[..|flows|] == flows;
    RowCount(flows);
  }

  /** One more turn of the loop: `Convert` on the next longer prefix. */
  lemma ConvertStep(flows: seq<Element>, i: nat)
    requires i < |flows|
    ensures var o := ProcessFlow(flows[i]);
            && Convert(flows[..i + 1]).rows == Convert(flows[..i]).rows + (if o.Written? then [o.row] else [])
            && Convert(flows[..i + 1]).skipped == Convert(flows[..i]).skipped + (if o.Skipped? then [o.id] else [])
  {
    assert flows[..i + 1][..i] == flows[..i];
    ConvertLast(flows[..i + 1]);
  }

  /** A turn that writes a row keeps the loop invariant of `WriteCsv`. */
  lemma WrittenStep(flows: seq<Element>, i: nat, csv: seq<Row>)
    requires i < |flows| && HasStats(flows[i])
    requires |csv| >= 1 && csv[1..] == Convert(flows[..i]).rows
    ensures (csv + [StatsRow(FlowId(flows[i]), Find(flows[i], StatsTag).value.attrib)])[1..] == Convert(flows[..i + 1]).rows
    ensures Convert(flows[..i + 1]).skipped == Convert(flows[..i]).skipped
  {
    ConvertStep(flows, i);
    var row := StatsRow(FlowId(flows[i]), Find(flows[i], StatsTag).value.attrib);
    assert (csv + [row])[1..] == csv[1..] + [row];
  }

  /** A turn that prints a warning keeps the loop invariant of `WriteCsv`. */
  lemma SkippedStep(flows: seq<Element>, i: nat)
    requires i < |flows| && !HasStats(flows[i])
    ensures Convert(flows[..i + 1]).rows == Convert(flows[..i]).rows
    ensures WarningLines(Convert(flows[..i + 1]).skipped)
            == WarningLines(Convert(flows[..i]).skipped) + [WarningLine(FlowId(flows[i]))]
  {
    ConvertStep(flows, i);
    WarningLinesSnoc(Convert(flows[..i]).skipped, FlowId(flows[i]));
  }

  /** Printing one more warning appends one line to the console. */
  lemma WarningLinesSnoc(ids: seq<string>, fid: string)
    ensures WarningLines(ids + [fid]) == WarningLines(ids) + [WarningLine(fid)]
  {
  }

  /** Rows and warnings split the flows exactly: one row per flow with
      statistics, one warning per flow without. */
  lemma {:induction false} RowCount(flows: seq<Element>)
    ensures |Convert(flows).rows| == CountWithStats(flows)
    ensures |Convert(flows).skipped| == |flows| - CountWithStats(flows)
  {
    if |flows| > 0 {
      RowCount(flows[..|flows| - 1]);
    }
  }

  /** Handling `a` and then `b` is handling `a + b`: the loop keeps the relative
      order of the flows, and what one flow contributes does not depend on the others. */
  lemma {:induction false} ConvertAppend(a: seq<Element>, b: seq<Element>)
    ensures Convert(a + b).rows == Convert(a).rows + Convert(b).rows
    ensures Convert(a + b).skipped == Convert(a).skipped + Convert(b).skipped
  {
    if |b| == 0 {
      assert a + b == a;
    } else {
      var b' := b[..|b| - 1];
      assert (a + b)[..|a + b| - 1] == a + b';
      assert (a + b)[|a + b| - 1] == b[|b| - 1];
      ConvertAppend(a, b');
    }
  }

  /** Where flow `i` ends up: with statistics, its row is data row number
      CountWithStats(flows[..i]); without, its id is warning number
      i - CountWithStats(flows[..i]). */
  lemma FlowPosition(flows: seq<Element>, i: nat)
    requires i < |flows|
    ensures HasStats(flows[i]) ==>
              var k := CountWithStats(flows[..i]);
              k < |Convert(flows).rows|
              && Convert(flows).rows[k] == StatsRow(FlowId(flows[i]), Find(flows[i], StatsTag).value.attrib)
    ensures !HasStats(flows[i]) ==>
              var k := i - CountWithStats(flows[..i]);
              0 <= k < |Convert(flows).skipped| && Convert(flows).skipped[k] == FlowId(flows[i])
  {
    var pre, mid, post := flows[..i], [flows[i]], flows[i + 1..];
    assert flows == pre + mid + post;
    assert (pre + mid)[..|pre + mid| - 1] == pre;
    ConvertAppend(pre + mid, post);
    ConvertAppend(pre, mid);
    assert Convert(mid) == Convert([] + mid) by { assert [] + mid == mid; }
    RowCount(pre);
  }

  /** `Convert` split at its last flow, rows and skipped ids apart. */
  lemma ConvertLast(flows: seq<Element>)
    requires |flows| > 0
    ensures var o := ProcessFlow(flows[|flows| - 1]);
            && Convert(flows).rows == Convert(flows[..|flows| - 1]).rows + (if o.Written? then [o.row] else [])
            && Convert(flows).skipped == Convert(flows[..|flows| - 1]).skipped + (if o.Skipped? then [o.id] else [])
  {
  }

  /** A row already produced by a prefix stays where it is when one more flow is handled. */
  lemma RowKept(flows: seq<Element>, k: nat, i: nat)
    requires 0 < |flows| && i < |flows| - 1
    requires k < |Convert(flows[..|flows| - 1]).rows|
    requires ProcessFlow(flows[..|flows| - 1][i]) == Written(Convert(flows[..|flows| - 1]).rows[k])
    ensures k < |Convert(flows).rows| && ProcessFlow(flows[i]) == Written(Convert(flows).rows[k])
  {
    ConvertLast(flows);
  }

  /** A row past the prefix's rows is the row of the last flow. */
  lemma RowOfLast(flows: seq<Element>, k: nat)
    requires 0 < |flows|
    requires |Convert(flows[..|flows| - 1]).rows| <= k < |Convert(flows).rows|
    ensures ProcessFlow(flows[|flows| - 1]) == Written(Convert(flows).rows[k])
  {
    ConvertLast(flows);
  }

  /** A skipped id already produced by a prefix stays where it is when one more flow is handled. */
  lemma SkippedKept(flows: seq<Element>, k: nat, i: nat)
    requires 0 < |flows| && i < |flows| - 1
    requires k < |Convert(flows[..|flows| - 1]).skipped|
    requires ProcessFlow(flows[..|flows| - 1][i]) == Skipped(Convert(flows[..|flows| - 1]).skipped[k])
    ensures k < |Convert(flows).skipped| && ProcessFlow(flows[i]) == Skipped(Convert(flows).skipped[k])
  {
    ConvertLast(flows);
  }

  /** A skipped id past the prefix's ids is the id of the last flow. */
  lemma SkippedOfLast(flows: seq<Element>, k: nat)
    requires 0 < |flows|
    requires |Convert(flows[..|flows| - 1]).skipped| <= k < |Convert(flows).skipped|
    ensures ProcessFlow(flows[|flows| - 1]) == Skipped(Convert(flows).skipped[k])
  {
    ConvertLast(flows);
  }

  /** No spurious rows: every data row is the row of some flow with statistics. */
  lemma {:induction false} RowOrigin(flows: seq<Element>, k: nat)
    requires k < |Convert(flows).rows|
    ensures exists i :: 0 <= i < |flows| && ProcessFlow(flows[i]) == Written(Convert(flows).rows[k])
  {
    var prev := flows[..|flows| - 1];
    if k < |Convert(prev).rows| {
      RowOrigin(prev, k);
      var i :| 0 <= i < |prev| && ProcessFlow(prev[i]) == Written(Convert(prev).rows[k]);
      RowKept(flows, k, i);
    } else {
      RowOfLast(flows, k);
    }
  }

  /** No spurious warnings: every skipped id is the id of some flow without statistics. */
  lemma {:induction false} SkippedOrigin(flows: seq<Element>, k: nat)
    requires k < |Convert(flows).skipped|
    ensures exists i :: 0 <= i < |flows| && ProcessFlow(flows[i]) == Skipped(Convert(flows).skipped[k])
  {
    var prev := flows[..|flows| - 1];
    if k < |Convert(prev).skipped| {
      SkippedOrigin(prev, k);
      var i :| 0 <= i < |prev| && ProcessFlow(prev[i]) == Skipped(Convert(prev).skipped[k]);
      SkippedKept(flows, k, i);
    } else {
      SkippedOfLast(flows, k);
    }
  }

  /** Data rows appear in the order of their flows: if flows `i < j` both have
      statistics, the row of `i` comes strictly before the row of `j`. */
  lemma RowsInFlowOrder(flows: seq<Element>, i: nat, j: nat)
    requires i < j < |flows|
    requires HasStats(flows[i]) && HasStats(flows[j])
    ensures CountWithStats(flows[..i]) < CountWithStats(flows[..j]) < |Convert(flows).rows|
    ensures Convert(flows).rows[CountWithStats(flows[..i])]
            == StatsRow(FlowId(flows[i]), Find(flows[i], StatsTag).value.attrib)
    ensures Convert(flows).rows[CountWithStats(flows[..j])]
            == StatsRow(FlowId(flows[j]), Find(flows[j], StatsTag).value.attrib)
  {
    FlowPosition(flows, i);
    FlowPosition(flows, j);
    CountGrows(flows, i, j);
  }

  /** A flow with statistics at `i` adds one to the count of every longer prefix. */
  lemma {:induction false} CountGrows(flows: seq<Element>, i: nat, j: nat)
    requires i < j <= |flows|
    requires HasStats(flows[i])
    ensures CountWithStats(flows[..i]) < CountWithStats(flows[..j])
  {
    assert flows[..j][..j - 1] == flows[..j - 1];
    if j > i + 1 {
      CountGrows(flows, i, j - 1);
    }
  }

  /** Only the first `FlowStats` child is read: later ones, and what they hold, change nothing. */
  lemma FirstStatsOnly(flow: Element, before: seq<Element>, stats: Element, after: seq<Element>)
    requires flow.children == before + [stats] + after
    requires stats.tag == StatsTag
    requires forall j :: 0 <= j < |before| ==> before[j].tag != StatsTag
    ensures ProcessFlow(flow) == Written(StatsRow(FlowId(flow), stats.attrib))
  {
    FindFirstOnly(flow, StatsTag, before, stats, after);
  }

  /** Attributes of `FlowStats` other than the twelve listed are ignored. */
  lemma OtherAttributesIgnored(fid: string, s: Attributes, t: Attributes)
    requires forall k :: 0 <= k < |StatKeys| ==>
               (StatKeys[k] in s <==> StatKeys[k] in t)
               && (StatKeys[k] in s ==> s[StatKeys[k]] == t[StatKeys[k]])
    ensures StatsRow(fid, s) == StatsRow(fid, t)
  {
    var r, q := StatsRow(fid, s), StatsRow(fid, t);
    forall c | 0 <= c < |r| ensures r[c] == q[c] {
      if c > 0 {
        assert r[c] == (if StatKeys[c - 1] in s then s[StatKeys[c - 1]] else MissingStat);
      }
    }
  }

  /** Every printed warning names its flow, and the id can be read back from the line. */
  lemma WarningRoundTrip(fid: string)
    ensures WarningId(WarningLine(fid)) == Some(fid)
  {
  }

  /** Every column the anomaly detector selects is one of the statistics
      columns of the header (never the FlowId column). */
  lemma DetectorFeaturesInHeader()
    ensures forall f :: f in DetectorFeatures ==> f in Header[1..]
  {
  }

  /** Header names are pairwise distinct, so selecting a column by name is unambiguous. */
  lemma HeaderDistinct()
    ensures forall a, b :: 0 <= a < b < |Header| ==> Header[a] != Header[b]
  {
  }
}
