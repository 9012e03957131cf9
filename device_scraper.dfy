/**
 * The connected-devices scraper of the router controller: every row of the
 * router's device table becomes a record `{device, mac, ip, state,
 * connectivity}`, or nothing when the row has fewer than five cells.
 *
 * The DOM is abstracted away: a row is the sequence of its cells, and each
 * cell is the `textContent` of the `div` the scraper looks for in it, or
 * `None` when that cell holds no such `div`.
 */
module DeviceScraper {
  import opened Wrappers
  import opened JsStrings

  /** One connected device, as returned to the web client. */
  datatype Device = Device(device: string, mac: string, ip: string, state: string, connectivity: string)

  /** Text of the `div` the scraper queries in one cell; `None` when it is absent. */
  type Cell = Option<string>

  /** The cells of one `tr.DevTableList` row, in order. */
  type DeviceRow = seq<Cell>

  const NotAvailable: string := "N/A"
  const NotConnected: string := "Not connected"
  const MinColumns: nat := 5
  const MacLength: nat := 17

  /** `el?.textContent.trim() || "N/A"`: the trimmed text, or "N/A" if the element is missing or its text is blank. */
  function TextOrNotAvailable(cell: Cell): (r: string)
    ensures r != ""
    ensures cell.Some? && Trim(cell.value) != "" ==> r == Trim(cell.value)
    ensures cell.None? || Trim(cell.value) == "" ==> r == NotAvailable
  {
    match cell
    case Some(t) => if Trim(t) != "" then Trim(t) else NotAvailable
    case None => NotAvailable
  }

  // ---------------------------------------------------------------------------
  // The MAC pattern ([0-9A-Fa-f]{2}[:-]){5}([0-9A-Fa-f]{2})
  // ---------------------------------------------------------------------------

  predicate IsHexDigit(c: char) {
    ('0' <= c <= '9') || ('A' <= c <= 'F') || ('a' <= c <= 'f')
  }

  predicate IsMacSeparator(c: char) {
    c == ':' || c == '-'
  }

  /** The pattern's atom `[0-9A-Fa-f]{2}` matches at index `i`. */
  predicate HexPairAt(s: string, i: nat) {
    i + 2 <= |s| && IsHexDigit(s[i]) && IsHexDigit(s[i + 1])
  }

  /** `n` consecutive copies of the group `([0-9A-Fa-f]{2}[:-])` match from index `i`. */
  predicate GroupsAt(s: string, i: nat, n: nat)
    decreases n
  {
    n == 0 || (HexPairAt(s, i) && i + 2 < |s| && IsMacSeparator(s[i + 2]) && GroupsAt(s, i + 3, n - 1))
  }

  /** The whole pattern matches at index `i`, following its grammar. */
  predicate MacPatternAt(s: string, i: nat) {
    GroupsAt(s, i, 5) && HexPairAt(s, i + 15)
  }

  /**
   * Independent shape of a MAC address: seventeen characters, a separator at
   * every position congruent to 2 modulo 3, a hexadecimal digit elsewhere.
   */
  predicate IsMacShape(w: string) {
    |w| == MacLength &&
    forall i :: 0 <= i < |w| ==> if i % 3 == 2 then IsMacSeparator(w[i]) else IsHexDigit(w[i])
  }

  lemma {:induction false} GroupsAtShape(s: string, i: nat, n: nat)
    requires i + 3 * n <= |s|
    ensures GroupsAt(s, i, n) <==>
              forall k :: 0 <= k < 3 * n ==> if k % 3 == 2 then IsMacSeparator(s[i + k]) else IsHexDigit(s[i + k])
    decreases n
  {
    if n > 0 {
      GroupsAtShape(s, i + 3, n - 1);
      if GroupsAt(s, i, n) {
        forall k | 0 <= k < 3 * n
          ensures if k % 3 == 2 then IsMacSeparator(s[i + k]) else IsHexDigit(s[i + k])
        {
          if k >= 3 {
            var k' := k - 3;
            assert k' % 3 == k % 3;
            assert s[i + 3 + k'] == s[i + k];
          }
        }
      }
      if forall k :: 0 <= k < 3 * n ==> if k % 3 == 2 then IsMacSeparator(s[i + k]) else IsHexDigit(s[i + k]) {
        assert 0 % 3 == 0 && 1 % 3 == 1 && 2 % 3 == 2;
        forall k' | 0 <= k' < 3 * (n - 1)
          ensures if k' % 3 == 2 then IsMacSeparator(s[i + 3 + k']) else IsHexDigit(s[i + 3 + k'])
        {
          var k := k' + 3;
          assert k % 3 == k' % 3;
        }
      }
    }
  }

  /** The regular expression matches at `i` exactly when the 17-character window there has the MAC shape. */
  lemma MacPatternAtIffShape(s: string, i: nat)
    ensures MacPatternAt(s, i) <==> i + MacLength <= |s| && IsMacShape(s[i..i + MacLength])
  {
    if i + MacLength <= |s| {
      GroupsAtShape(s, i, 5);
      var w := s[i..i + MacLength];
      assert forall k :: 0 <= k < MacLength ==> w[k] == s[i + k];
      assert 15 % 3 == 0 && 16 % 3 == 1;
    } else if GroupsAt(s, i, 5) {
      // five groups need fifteen characters, so the last pair cannot fit
      assert HexPairAt(s, i) && GroupsAt(s, i + 3, 4);
      assert GroupsAt(s, i + 6, 3) && GroupsAt(s, i + 9, 2) && GroupsAt(s, i + 12, 1);
    }
  }

  /** Leftmost index at or after `from` where the MAC pattern matches. */
  function FirstMacFrom(s: string, from: nat): (r: Option<nat>)
    decreases |s| - from
    ensures r.Some? ==> from <= r.value && MacPatternAt(s, r.value)
                        && forall j :: from <= j < r.value ==> !MacPatternAt(s, j)
    ensures r.None? ==> forall j :: from <= j ==> !MacPatternAt(s, j)
  {
    if from + MacLength > |s| then
      assert forall j :: from <= j ==> !MacPatternAt(s, j) by {
        forall j | from <= j ensures !MacPatternAt(s, j) { MacPatternAtIffShape(s, j); }
      }
      None
    else if MacPatternAt(s, from) then Some(from)
    else FirstMacFrom(s, from + 1)
  }

  /**
   * `line.match(pattern)` then `macMatch ? macMatch[0] : "N/A"`: the leftmost
   * 17-character MAC-shaped window of `line`, or "N/A" when there is none.
   */
  function ExtractMac(line: string): (mac: string)
    ensures mac == NotAvailable <==> forall j :: !MacPatternAt(line, j)
    ensures mac != NotAvailable ==>
              IsMacShape(mac) &&
              exists k: nat :: k + MacLength <= |line| && mac == line[k..k + MacLength] && MacPatternAt(line, k)
                          && forall j :: 0 <= j < k ==> !MacPatternAt(line, j)
  {
    match FirstMacFrom(line, 0)
    case None => NotAvailable
    case Some(k) =>
      MacPatternAtIffShape(line, k);
      line[k..k + MacLength]
  }

  /** `combinedIpMac.replace(mac, "").trim() || "N/A"`. */
  function ExtractIp(line: string, mac: string): (ip: string)
    ensures ip != ""
  {
    var rest := Trim(RemoveFirst(line, mac));
    if rest == "" then NotAvailable else rest
  }

  /**
   * The trimmed first line of the IP/MAC cell: its text is trimmed, split on
   * line feeds, and the first piece trimmed again; a missing cell stands for
   * the fallback `["N/A", "N/A"]`.
   */
  function IpMacLine(cell: Cell): (line: string)
    ensures '\n' !in line
    ensures line == [] || (!IsJsWhitespace(line[0]) && !IsJsWhitespace(line[|line| - 1]))
    ensures cell.None? ==> line == NotAvailable
  {
    match cell
    case Some(t) =>
      var first := Split(Trim(t), '\n')[0];
      TrimAddsNothing(first, '\n');
      Trim(first)
    case None => Trim(NotAvailable)
  }

  /** The `.map` callback of the scraper: `None` plays the role of `null`. */
  function RowToDevice(row: DeviceRow): (d: Option<Device>)
    ensures d.Some? <==> |row| >= MinColumns
  {
    if |row| < MinColumns then None
    else
      var name := TextOrNotAvailable(row[0]);
      var line := IpMacLine(row[2]);
      var state := TextOrNotAvailable(row[3]);
      var connectivity := TextOrNotAvailable(row[4]);
      var mac := ExtractMac(line);
      var ip := ExtractIp(line, mac);
      Some(Device(name, mac, ip, ToLower(state),
                  if connectivity == "--" then NotConnected else connectivity))
  }

  /** `.filter((device) => device !== null)`: the records of the list, and nothing else. */
  function DropNulls(xs: seq<Option<Device>>): (ys: seq<Device>)
    ensures |ys| <= |xs|
    ensures forall k :: 0 <= k < |ys| ==> Some(ys[k]) in xs
    ensures forall i :: 0 <= i < |xs| && xs[i].Some? ==> xs[i].value in ys
  {
    if xs == [] then []
    else if xs[0].Some? then [xs[0].value] + DropNulls(xs[1..])
    else DropNulls(xs[1..])
  }

  /**
   * The whole scraper: map every row, then drop the nulls. Every record comes
   * from some row, and every row with at least five cells gives one.
   */
  function ScrapeDevices(rows: seq<DeviceRow>): (devices: seq<Device>)
    ensures |devices| <= |rows|
    ensures forall k :: 0 <= k < |devices| ==> exists i :: 0 <= i < |rows| && RowToDevice(rows[i]) == Some(devices[k])
    ensures forall i :: 0 <= i < |rows| && |rows[i]| >= MinColumns ==> RowToDevice(rows[i]).value in devices
  {
    var mapped := seq(|rows|, i requires 0 <= i < |rows| => RowToDevice(rows[i]));
    assert forall i :: 0 <= i < |rows| ==> mapped[i] == RowToDevice(rows[i]);
    var devices := DropNulls(mapped);
    assert forall k :: 0 <= k < |devices| ==> exists i :: 0 <= i < |rows| && mapped[i] == Some(devices[k]);
    devices
  }

  // ---------------------------------------------------------------------------
  // Properties of the scraper
  // ---------------------------------------------------------------------------

  /** Indices of the rows that have at least five cells, in increasing order. */
  function KeptRows(rows: seq<DeviceRow>): (ks: seq<nat>)
    ensures forall k :: 0 <= k < |ks| ==> ks[k] < |rows| && |rows[ks[k]]| >= MinColumns
    ensures forall k, l :: 0 <= k < l < |ks| ==> ks[k] < ks[l]
    ensures forall i :: 0 <= i < |rows| && |rows[i]| >= MinColumns ==> i in ks
  {
    if rows == [] then []
    else
      var last := |rows| - 1;
      var ks := KeptRows(rows[..last]);
      if |rows[last]| >= MinColumns then ks + [last] else ks
  }

  lemma {:induction false} DropNullsSnoc(xs: seq<Option<Device>>, x: Option<Device>)
    ensures DropNulls(xs + [x]) == DropNulls(xs) + (if x.Some? then [x.value] else [])
  {
    if xs != [] {
      assert (xs + [x])[1..] == xs[1..] + [x];
      DropNullsSnoc(xs[1..], x);
    } else {
      assert DropNulls([x]) == (if x.Some? then [x.value] else []) + DropNulls([]);
    }
  }

  /** Appending a row appends its record, if it has one, to the scraper's output. */
  lemma ScrapeSnoc(rows: seq<DeviceRow>, row: DeviceRow)
    ensures ScrapeDevices(rows + [row]) ==
              ScrapeDevices(rows) + if |row| >= MinColumns then [RowToDevice(row).value] else []
  {
    var all := rows + [row];
    var mapped := seq(|all|, i requires 0 <= i < |all| => RowToDevice(all[i]));
    var mappedInit := seq(|rows|, i requires 0 <= i < |rows| => RowToDevice(rows[i]));
    assert mapped == mappedInit + [RowToDevice(row)];
    DropNullsSnoc(mappedInit, RowToDevice(row));
  }

  /**
   * The scraper keeps exactly the rows with at least five cells, one record per
   * kept row, in the rows' original order.
   */
  lemma {:induction false} ScrapeDevicesKeepsRowsInOrder(rows: seq<DeviceRow>)
    ensures |ScrapeDevices(rows)| == |KeptRows(rows)|
    ensures forall k :: 0 <= k < |KeptRows(rows)| ==>
              RowToDevice(rows[KeptRows(rows)[k]]) == Some(ScrapeDevices(rows)[k])
  {
    if rows != [] {
      var last := |rows| - 1;
      var init := rows[..last];
      assert rows == init + [rows[last]];
      ScrapeDevicesKeepsRowsInOrder(init);
      ScrapeSnoc(init, rows[last]);
      var ks, out := KeptRows(init), ScrapeDevices(init);
      var mapped := seq(|rows|, i requires 0 <= i < |rows| => RowToDevice(rows[i]));
      PairsCarryOver(rows, mapped, ks, out);
      PairedAppend(mapped, ks, out, KeptRows(rows), ScrapeDevices(rows), last);
    }
  }

  /** The pairing of the first rows' records carries over to the mapping of all rows. */
  lemma PairsCarryOver(rows: seq<DeviceRow>, mapped: seq<Option<Device>>, ks: seq<nat>, out: seq<Device>)
    requires rows != [] && mapped == seq(|rows|, i requires 0 <= i < |rows| => RowToDevice(rows[i]))
    requires |out| == |ks|
    requires forall k :: 0 <= k < |ks| ==>
               ks[k] < |rows| - 1 && RowToDevice(rows[..|rows| - 1][ks[k]]) == Some(out[k])
    ensures forall k :: 0 <= k < |ks| ==> ks[k] < |mapped| && mapped[ks[k]] == Some(out[k])
  {
    forall k | 0 <= k < |ks|
      ensures ks[k] < |mapped| && mapped[ks[k]] == Some(out[k])
    {
      assert rows[..|rows| - 1][ks[k]] == rows[ks[k]];
    }
  }

  /**
   * Index list and record list stay paired when the last entry of `mapped`
   * appends its index and its record, or neither.
   */
  lemma PairedAppend(mapped: seq<Option<Device>>, ks: seq<nat>, out: seq<Device>,
                     ks': seq<nat>, out': seq<Device>, last: nat)
    requires |out| == |ks| && forall k :: 0 <= k < |ks| ==> ks[k] < |mapped| && mapped[ks[k]] == Some(out[k])
    requires last < |mapped|
    requires || (mapped[last].None? && ks' == ks && out' == out)
             || (mapped[last].Some? && ks' == ks + [last] && out' == out + [mapped[last].value])
    ensures |out'| == |ks'| && forall k :: 0 <= k < |ks'| ==> ks'[k] < |mapped| && mapped[ks'[k]] == Some(out'[k])
  {
  }

  /** A row with fewer than five cells produces no record; any other row produces exactly one. */
  lemma ScrapeSingleRow(row: DeviceRow)
    ensures |row| < MinColumns ==> ScrapeDevices([row]) == []
    ensures |row| >= MinColumns ==> ScrapeDevices([row]) == [RowToDevice(row).value]
  {
    var mapped := seq(1, i requires 0 <= i < 1 => RowToDevice([row][i]));
    assert mapped == [RowToDevice(row)];
    DropNullsSnoc([], RowToDevice(row));
  }

  /**
   * The first occurrence of the extracted MAC in its line is the match
   * itself: an earlier copy of the same seventeen characters would be an
   * earlier match.
   */
  lemma MacOccursFirstAtMatch(line: string, k: nat)
    requires MacPatternAt(line, k)
    requires forall j :: 0 <= j < k ==> !MacPatternAt(line, j)
    ensures IndexOf(line, line[k..k + MacLength]) == Some(k)
  {
    MacPatternAtIffShape(line, k);
    var mac := line[k..k + MacLength];
    assert OccursAt(line, mac, k);
    var r := IndexOf(line, mac);
    if r != Some(k) {
      var j := r.value;
      assert j < k && OccursAt(line, mac, j);
      MacPatternAtIffShape(line, j);
    }
  }

  /**
   * The IP field is the IP/MAC line with the leftmost MAC match deleted,
   * trimmed, or "N/A" when nothing is left.
   */
  lemma IpIsLineWithoutMac(line: string)
    requires ExtractMac(line) != NotAvailable
    ensures exists k: nat :: k + MacLength <= |line| && line[k..k + MacLength] == ExtractMac(line) &&
              MacPatternAt(line, k) && (forall j :: 0 <= j < k ==> !MacPatternAt(line, j)) &&
              var rest := Trim(line[..k] + line[k + MacLength..]);
              ExtractIp(line, ExtractMac(line)) == if rest == "" then NotAvailable else rest
  {
    var mac := ExtractMac(line);
    var k := FirstMacFrom(line, 0).value;
    MacOccursFirstAtMatch(line, k);
    assert RemoveFirst(line, mac) == line[..k] + line[k + MacLength..];
  }

  /**
   * Without a MAC the scraper still deletes the first literal "N/A" from the
   * line; when the line holds no MAC and no "N/A", the IP is the whole line.
   */
  lemma IpWithoutMac(cell: Cell)
    requires ExtractMac(IpMacLine(cell)) == NotAvailable
    requires IndexOf(IpMacLine(cell), NotAvailable).None?
    ensures ExtractIp(IpMacLine(cell), NotAvailable) ==
              if IpMacLine(cell) == "" then NotAvailable else IpMacLine(cell)
  {
    match cell
    case Some(t) => TrimIdempotent(Split(Trim(t), '\n')[0]);
    case None => TrimIdempotent(NotAvailable);
  }

  /** A row whose IP/MAC cell is missing reports both its MAC and its IP as "N/A". */
  lemma MissingIpMacCell(row: DeviceRow)
    requires |row| >= MinColumns && row[2].None?
    ensures RowToDevice(row).value.mac == NotAvailable
    ensures RowToDevice(row).value.ip == NotAvailable
  {
    TrimOfTrimmed(NotAvailable);
    assert IpMacLine(row[2]) == NotAvailable;
    assert ExtractMac(NotAvailable) == NotAvailable;
    assert OccursAt(NotAvailable, NotAvailable, 0);
    assert RemoveFirst(NotAvailable, NotAvailable) == "";
    assert Trim("") == "";
  }

  /**
   * The name, MAC, IP, state and connectivity of every record are never empty;
   * the MAC is "N/A" or MAC-shaped; the state has no ASCII capital; the
   * connectivity is "Not connected" in place of "--" and the trimmed text otherwise.
   */
  lemma DeviceFields(row: DeviceRow)
    requires |row| >= MinColumns
    ensures var d := RowToDevice(row).value;
            && d.device != "" && d.mac != "" && d.ip != "" && d.state != "" && d.connectivity != ""
            && (d.mac == NotAvailable || IsMacShape(d.mac))
            && (forall i :: 0 <= i < |d.state| ==> !('A' <= d.state[i] <= 'Z'))
            && d.connectivity != "--"
            && (TextOrNotAvailable(row[4]) == "--" ==> d.connectivity == NotConnected)
            && (TextOrNotAvailable(row[4]) != "--" ==> d.connectivity == TextOrNotAvailable(row[4]))
  {
  }

  /** A missing or blank status reads "n/a": the fallback "N/A" is lower-cased like any status. */
  lemma MissingStatusIsLowerCaseNotAvailable(row: DeviceRow)
    requires |row| >= MinColumns && (row[3].None? || Trim(row[3].value) == "")
    ensures RowToDevice(row).value.state == "n/a"
  {
    assert ToLower(NotAvailable) == "n/a" by {
      assert ToLower(NotAvailable)[0] == LowerChar('N');
      assert ToLower(NotAvailable)[2] == LowerChar('A');
    }
  }
}
