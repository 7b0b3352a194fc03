# Flow-monitor report to CSV export

This project models the script `ml_detection/flowmon_xml_to_csv.py`, with its line 1 removed, which exports flow
statistics. (As written, line 1 is a bare path expression that raises a NameError before any XML is read.) It reads the
`Flow` elements of a flow-monitor XML report in document order and writes a CSV file. The file has a fixed
13-column header and then one row per flow that has a `FlowStats` child. Each row holds the flow's `flowId`
(`N/A` when missing) and twelve `FlowStats` attributes, copied verbatim, with `0` for any that is missing. A
flow without a `FlowStats` child is skipped, and a warning naming its id is printed.

- `xml_tree.dfy` (module `Xml`): the parsed element tree (tag, attribute map, direct children) and the two
  lookups the script uses. `AttrGet` models `attrib.get(key, default)`. `Find` models `find(tag)`, the first
  direct child with that tag, and is built on `FirstWithTag`.
- `flowmon_csv.dfy` (module `FlowmonCsv`): the header, the twelve attribute keys, and the row of one flow
  (`StatsRow`). `ProcessFlow` is one loop turn as a value. `Convert` is the specification of the whole loop: the
  data rows and the skipped ids after a prefix of the flows. `WriteCsv` is the loop itself. It appends to the
  CSV rows and to the console lines, and it is proved equal to `[Header]` followed by `Convert`. The lemmas
  relate `Convert` to its input: counts, positions, order, origins, and the first-`FlowStats`-only rule.

## Model

| member | source | states |
|---|---|---|
| `Xml.AttrGet` | ml_detection/flowmon_xml_to_csv.py:16-33 | `attrib.get(key, default)`: the attribute's value when the key is present, the default otherwise; these ensures are the definition of `dict.get` and restate the body |
| `Xml.FirstWithTag` | ml_detection/flowmon_xml_to_csv.py:17 | the index returned carries the tag, and no earlier child does; nothing is returned exactly when no child carries the tag |
| `Xml.Find` | ml_detection/flowmon_xml_to_csv.py:17 | `find` returns a direct child with the tag that comes before every other such child; it returns nothing exactly when no direct child has the tag |
| `Xml.FindFirstOnly` | ml_detection/flowmon_xml_to_csv.py:17 | if the first child with the tag is `c`, `find` returns `c`, whatever children follow it |
| `FlowmonCsv.FlowId` | ml_detection/flowmon_xml_to_csv.py:16 | the flow id is the `flowId` attribute when present and `N/A` when absent |
| `FlowmonCsv.HasStats` | ml_detection/flowmon_xml_to_csv.py:17-19 | the `stats is not None` test holds exactly when some direct child of the flow is tagged `FlowStats` |
| `FlowmonCsv.StatsRow` | ml_detection/flowmon_xml_to_csv.py:20-34 | a data row has as many fields as the header (13); field 0 is the flow id; field i+1 is the verbatim value of the i-th statistics key, or `"0"` when that key is absent |
| `FlowmonCsv.ProcessFlow` | ml_detection/flowmon_xml_to_csv.py:16-36 | a flow gives a row exactly when some direct child is `FlowStats`; the row is built from the first such child and the `flowId` (`N/A` when absent); otherwise the flow is skipped under that id |
| `FlowmonCsv.Convert` | ml_detection/flowmon_xml_to_csv.py:15-36 | data rows plus skipped flows number exactly the flows iterated, and every data row is as wide as the header |
| `FlowmonCsv.WarningLine` | ml_detection/flowmon_xml_to_csv.py:36 | the printed warning is the fixed prefix `[WARNING] No <FlowStats> found for Flow ID `, then the flow id verbatim, then `, skipping.`, with nothing else |
| `FlowmonCsv.WarningLines` | ml_detection/flowmon_xml_to_csv.py:35-36 | the console holds one warning line per skipped id, line k for id k |
| `FlowmonCsv.WarningId` | ml_detection/flowmon_xml_to_csv.py:36 | inverse of the warning format: an id read back from a console line is one whose warning line is exactly that line (the source has no such reader; it is the partner of `WarningLine`) |
| `FlowmonCsv.WriteCsv` | ml_detection/flowmon_xml_to_csv.py:8-36 | the output is exactly one header row, the 13 fixed names, followed by the rows of `Convert` in order, one per flow with statistics; the console gets one warning line per skipped id, in order |
| `FlowmonCsv.RowCount` | ml_detection/flowmon_xml_to_csv.py:15-36 | the number of data rows equals the number of flows with a `FlowStats` child; the number of warnings equals the number of the others |
| `FlowmonCsv.ConvertAppend` | ml_detection/flowmon_xml_to_csv.py:15-36 | exporting `a + b` gives the rows and warnings of `a` followed by those of `b`, so a flow's output does not depend on other flows and relative order is kept |
| `FlowmonCsv.FlowPosition` | ml_detection/flowmon_xml_to_csv.py:15-36 | flow `i` with statistics produces data row number (flows with statistics before `i`); flow `i` without statistics produces warning number (flows without statistics before `i`), carrying its id |
| `FlowmonCsv.RowOrigin` | ml_detection/flowmon_xml_to_csv.py:19-34 | every data row is the row that `ProcessFlow` writes for some input flow, so that flow has a `FlowStats` child; no row comes from anywhere else |
| `FlowmonCsv.SkippedOrigin` | ml_detection/flowmon_xml_to_csv.py:35-36 | every warning id is the id under which `ProcessFlow` skips some input flow, so that flow has no `FlowStats` child |
| `FlowmonCsv.CountGrows` | ml_detection/flowmon_xml_to_csv.py:15-19 | a flow with statistics at position `i` strictly increases the row count of every longer prefix |
| `FlowmonCsv.RowsInFlowOrder` | ml_detection/flowmon_xml_to_csv.py:15-34 | for flows `i < j` that both have statistics, the row of `i` comes strictly before the row of `j` and each row is its own flow's row |
| `FlowmonCsv.FirstStatsOnly` | ml_detection/flowmon_xml_to_csv.py:17-34 | when several `FlowStats` children exist, the row is taken from the first one only |
| `FlowmonCsv.OtherAttributesIgnored` | ml_detection/flowmon_xml_to_csv.py:22-33 | two attribute maps that agree on the twelve keys give the same row, so other attributes are ignored |
| `FlowmonCsv.WarningRoundTrip` | ml_detection/flowmon_xml_to_csv.py:36 | each printed warning carries its flow id, and the id can be read back from the line |
| `FlowmonCsv.DetectorFeaturesInHeader` | ml_detection/detect_anomalies.py:9-12 | every column that the anomaly detector selects is a statistics column of the header |
| `FlowmonCsv.HeaderDistinct` | ml_detection/flowmon_xml_to_csv.py:10-13 | the 13 header names are pairwise distinct |

## Left out

- XML parsing (`ET.parse`) and the descendant walk `root.iter('Flow')`. The `Flow` elements are an input
  sequence, assumed to be in document order.
- Opening the output file and CSV quoting and escaping. Rows are sequences of strings, not bytes.
- Printing. The console is the sequence of lines `WriteCsv` returns.
- Line 1 of `ml_detection/flowmon_xml_to_csv.py`. It is a bare path expression that raises a NameError, so the script
  as written stops before `ET.parse`. The model covers the script with that line removed.
- `ns3_simulation/custom_anamoly.cc`. It only configures an external network simulator: topology, devices,
  addresses, routes, attachment to the nearest base station, UDP applications and the event loop. All of the
  decision logic lives inside that library.
- `ml_detection/detect_anomalies.py`, except its list of selected columns. It fits an isolation forest over
  floats with randomised behaviour, and it plots the result.
