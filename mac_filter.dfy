/**
 * The MAC-filter lookup of `unblockDevice`: find the blocked device's row in
 * the router's `#WMacfilterConfigList` table, tick its checkbox, delete it,
 * and check on the refreshed table that it is gone.
 *
 * A table row is abstracted to whether it is a header row (class `tableth`)
 * and the text of each of its `td` cells.
 */
module MacFilter {
  import opened Wrappers
  import opened JsStrings
  import opened Http

  datatype FilterRow = FilterRow(isHeader: bool, cells: seq<string>)

  const NotFoundMessage: string := "Device not found in the blocked list"
  const StillPresentMessage: string := "Failed to unblock the device"
  const UnblockedMessage: string := "Device unblocked successfully"

  /** `row.querySelector("td:nth-child(2)")?.textContent.trim()`: `None` when the row has no second cell. */
  function SecondCell(row: FilterRow): (c: Option<string>)
    ensures c.Some? <==> |row.cells| >= 2
    ensures c.Some? ==> |c.value| <= |row.cells[1]| && Trim(c.value) == c.value
  {
    if |row.cells| >= 2 then
      TrimIdempotent(row.cells[1]);
      Some(Trim(row.cells[1]))
    else None
  }

  /** The row's trimmed second cell is exactly `mac` (case-sensitive). */
  predicate ListsMac(row: FilterRow, mac: string) {
    SecondCell(row) == Some(mac)
  }

  /** Some row of `rows` lists `mac`. */
  predicate Listed(rows: seq<FilterRow>, mac: string) {
    exists i :: 0 <= i < |rows| && ListsMac(rows[i], mac)
  }

  /** Indices of the non-header rows of `table`, in increasing order. */
  function NonHeaderIndices(table: seq<FilterRow>): (idx: seq<nat>)
    ensures forall k :: 0 <= k < |idx| ==> idx[k] < |table| && !table[idx[k]].isHeader
    ensures forall k, l :: 0 <= k < l < |idx| ==> idx[k] < idx[l]
    ensures forall i :: 0 <= i < |table| && !table[i].isHeader ==> i in idx
  {
    if table == [] then []
    else
      var last := |table| - 1;
      var idx := NonHeaderIndices(table[..last]);
      if table[last].isHeader then idx else idx + [last]
  }

  /**
   * `querySelectorAll("#WMacfilterConfigList tr:not(.tableth)")`: every
   * non-header row of the table and nothing else, in table order.
   */
  function DataRows(table: seq<FilterRow>): (rows: seq<FilterRow>)
    ensures |rows| == |NonHeaderIndices(table)|
    ensures forall k :: 0 <= k < |rows| ==> rows[k] == table[NonHeaderIndices(table)[k]]
  {
    if table == [] then []
    else
      var last := |table| - 1;
      DataRows(table[..last]) + if table[last].isHeader then [] else [table[last]]
  }

  /** Some non-header row of the whole table lists `mac`. */
  predicate ListedInTable(table: seq<FilterRow>, mac: string) {
    exists i :: 0 <= i < |table| && !table[i].isHeader && ListsMac(table[i], mac)
  }

  /** A data row that lists `mac` is a non-header row of the table that lists it. */
  lemma ListedDataRowIsInTable(table: seq<FilterRow>, mac: string, k: nat)
    requires k < |DataRows(table)| && ListsMac(DataRows(table)[k], mac)
    ensures ListedInTable(table, mac)
  {
    var i := NonHeaderIndices(table)[k];
    assert DataRows(table)[k] == table[i];
  }

  /** A non-header row of the table that lists `mac` is one of the data rows. */
  lemma TableRowIsListedDataRow(table: seq<FilterRow>, mac: string, i: nat)
    requires i < |table| && !table[i].isHeader && ListsMac(table[i], mac)
    ensures Listed(DataRows(table), mac)
  {
    var idx := NonHeaderIndices(table);
    var k :| 0 <= k < |idx| && idx[k] == i;
    assert DataRows(table)[k] == table[i];
  }

  /** The lookup can succeed exactly when some non-header row of the table lists the MAC. */
  lemma ListedIffDataRowListsMac(table: seq<FilterRow>, mac: string)
    ensures Listed(DataRows(table), mac) <==> ListedInTable(table, mac)
  {
    if Listed(DataRows(table), mac) {
      var k :| 0 <= k < |DataRows(table)| && ListsMac(DataRows(table)[k], mac);
      ListedDataRowIsInTable(table, mac, k);
    }
    if ListedInTable(table, mac) {
      var i :| 0 <= i < |table| && !table[i].isHeader && ListsMac(table[i], mac);
      TableRowIsListedDataRow(table, mac, i);
    }
  }

  /** One entry of the blocked list returned by `getBlockedDevices`; a missing cell leaves its field undefined. */
  datatype BlockedDevice = BlockedDevice(macAddress: Option<string>, deviceName: Option<string>)

  /** `row.querySelector("td:nth-child(3)")?.textContent.trim()`. */
  function ThirdCell(row: FilterRow): (c: Option<string>)
    ensures c.Some? <==> |row.cells| >= 3
    ensures c.Some? ==> |c.value| <= |row.cells[2]| && Trim(c.value) == c.value
  {
    if |row.cells| >= 3 then
      TrimIdempotent(row.cells[2]);
      Some(Trim(row.cells[2]))
    else None
  }

  /**
   * `getBlockedDevices`: one entry per non-header row of the table, in table
   * order, holding that row's second and third cells.
   */
  function BlockedDevices(table: seq<FilterRow>): (list: seq<BlockedDevice>)
    ensures |list| == |NonHeaderIndices(table)|
    ensures forall k :: 0 <= k < |list| ==>
              var row := table[NonHeaderIndices(table)[k]];
              list[k] == BlockedDevice(SecondCell(row), ThirdCell(row))
  {
    var rows := DataRows(table);
    seq(|rows|, i requires 0 <= i < |rows| => BlockedDevice(SecondCell(rows[i]), ThirdCell(rows[i])))
  }

  /** A MAC address shown in the blocked list is found by the unblock lookup on the same table. */
  lemma ListedDeviceIsFound(table: seq<FilterRow>, i: nat)
    requires i < |BlockedDevices(table)| && BlockedDevices(table)[i].macAddress.Some?
    ensures Listed(DataRows(table), BlockedDevices(table)[i].macAddress.value)
  {
    var rows := DataRows(table);
    assert ListsMac(rows[i], BlockedDevices(table)[i].macAddress.value);
  }

  /**
   * The `for (const row of rows)` loop with its early return: the index of the
   * first row that lists `mac`, or `None` when no row does.
   */
  method FindBlockedRow(rows: seq<FilterRow>, mac: string) returns (found: Option<nat>)
    ensures found.Some? ==> found.value < |rows| && ListsMac(rows[found.value], mac)
                            && forall j :: 0 <= j < found.value ==> !ListsMac(rows[j], mac)
    ensures found.None? <==> !Listed(rows, mac)
  {
    for i := 0 to |rows|
      invariant forall j :: 0 <= j < i ==> !ListsMac(rows[j], mac)
    {
      if ListsMac(rows[i], mac) {
        return Some(i);
      }
    }
    return None;
  }

  /** Row `i` of the table is the first non-header row that lists `mac`. */
  predicate FirstListingRow(table: seq<FilterRow>, mac: string, i: nat) {
    && i < |table| && !table[i].isHeader && ListsMac(table[i], mac)
    && forall j :: 0 <= j < i && !table[j].isHeader ==> !ListsMac(table[j], mac)
  }

  /** In an increasing sequence a smaller entry comes earlier. */
  lemma IncreasingOrder(xs: seq<nat>, k: nat, c: nat)
    requires forall a, b :: 0 <= a < b < |xs| ==> xs[a] < xs[b]
    requires k < |xs| && c < |xs| && xs[k] < xs[c]
    ensures k < c
  {
  }

  /** The first data row that lists `mac` is the first non-header row of the whole table that does. */
  lemma FirstDataRowIsFirstInTable(table: seq<FilterRow>, mac: string, c: nat)
    requires c < |DataRows(table)| && ListsMac(DataRows(table)[c], mac)
    requires forall j :: 0 <= j < c ==> !ListsMac(DataRows(table)[j], mac)
    ensures c < |NonHeaderIndices(table)| && FirstListingRow(table, mac, NonHeaderIndices(table)[c])
  {
    var rows, idx := DataRows(table), NonHeaderIndices(table);
    forall j | 0 <= j < idx[c] && !table[j].isHeader
      ensures !ListsMac(table[j], mac)
    {
      var k :| 0 <= k < |idx| && idx[k] == j;
      IncreasingOrder(idx, k, c);
      assert rows[k] == table[j];
    }
  }

  /**
   * `unblockDevice` once the router pages are read: `before` is the table
   * when the lookup runs and `after` the table once the delete button has
   * been pressed. `clicked` is the data row whose checkbox is ticked: the
   * first non-header row of `before` that lists the MAC.
   */
  method UnblockDevice(mac: string, before: seq<FilterRow>, after: seq<FilterRow>)
    returns (r: Response, clicked: Option<nat>)
    ensures clicked.Some? <==> Listed(DataRows(before), mac)
    ensures clicked.Some? ==>
              var rows := DataRows(before);
              clicked.value < |rows| && ListsMac(rows[clicked.value], mac)
              && forall j :: 0 <= j < clicked.value ==> !ListsMac(rows[j], mac)
    ensures clicked.Some? ==>
              clicked.value < |NonHeaderIndices(before)|
              && FirstListingRow(before, mac, NonHeaderIndices(before)[clicked.value])
    ensures !Listed(DataRows(before), mac) ==> r == Thrown(404, NotFoundMessage)
    ensures Listed(DataRows(before), mac) && Listed(DataRows(after), mac) ==> r == Thrown(500, StillPresentMessage)
    ensures Listed(DataRows(before), mac) && !Listed(DataRows(after), mac) ==> r == Json(true, UnblockedMessage)
  {
    clicked := FindBlockedRow(DataRows(before), mac);
    if clicked.None? {
      return Thrown(404, NotFoundMessage), clicked;
    }
    FirstDataRowIsFirstInTable(before, mac, clicked.value);
    var stillPresent := FindBlockedRow(DataRows(after), mac);
    if stillPresent.Some? {
      return Thrown(500, StillPresentMessage), clicked;
    }
    r := Json(true, UnblockedMessage);
  }
}
