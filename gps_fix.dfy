/**
 * What `process_gps_coordinates` makes of the `AT+CGPSINF=32` answer: the
 * NMEA 0183 RMC sentence `...,A,<lat>,<N|S>,<lon>,<E|W>,...` held in
 * `uart_read_str`, turned into the text `gps_str` that the position SMS
 * carries. `ProcessAsWritten` follows the index arithmetic of the code,
 * `ProcessCorrected` the evidently intended one.
 */
module GpsFix {

  datatype Option<T> = None | Some(value: T)

  /** `gps_str` is a 100-byte array. */
  const GpsCapacity: nat := 100
  const LatLabel: seq<char> := "LATITUDE "
  const LonLabel: seq<char> := "LONGITUDE "

  /** `",A,"` centred on `i`: the valid-status field of the RMC sentence. */
  predicate IsMarker(buf: seq<char>, i: nat)
  {
    1 <= i && i + 1 < |buf| && buf[i - 1] == ',' && buf[i] == 'A' && buf[i + 1] == ','
  }

  /** The first marker at or after `i`. */
  function FindMarker(buf: seq<char>, i: nat): (m: Option<nat>)
    decreases |buf| - i
    ensures m.Some? ==> i <= m.value && IsMarker(buf, m.value)
    ensures m.Some? ==> forall k :: i <= k < m.value ==> !IsMarker(buf, k)
    ensures m.None? ==> forall k :: i <= k ==> !IsMarker(buf, k)
  {
    if i + 1 >= |buf| then None
    else if IsMarker(buf, i) then Some(i)
    else FindMarker(buf, i + 1)
  }

  /** Four `'0'` from `k` on: a position field the receiver has not filled in. */
  predicate Zeros(buf: seq<char>, k: nat)
  {
    k + 3 < |buf| && buf[k] == '0' && buf[k + 1] == '0' && buf[k + 2] == '0' && buf[k + 3] == '0'
  }

  /** Where the copy of one field stops, and why. */
  datatype Scan =
    | Comma(at: nat)     // the `,` that ends the field
    | ZeroRun(at: nat)   // four `'0'` start here: `return -1`
    | Full(at: nat)      // one more byte would be written past the end of `gps_str`
    | OffEnd(at: nat)    // the field runs past the end of `uart_read_str`

  /**
   * The loop `while (buf[i] != ',') { if (<four '0' at i>) return -1; else gps_str[j++] = buf[i++]; }`
   * started at `i` with `room` bytes left in `gps_str`.
   */
  function ScanField(buf: seq<char>, i: nat, room: nat): (r: Scan)
    decreases |buf| - i
    ensures i <= r.at && r.at - i <= room && (r.at <= |buf| || r.at == i)
    ensures r.Comma? ==> r.at < |buf| && buf[r.at] == ','
    ensures r.ZeroRun? ==> r.at < |buf| && buf[r.at] != ',' && Zeros(buf, r.at)
    ensures r.Full? ==> r.at < |buf| && buf[r.at] != ',' && !Zeros(buf, r.at) && r.at - i == room
    ensures r.OffEnd? ==> |buf| <= r.at
  {
    if i >= |buf| then OffEnd(i)
    else if buf[i] == ',' then Comma(i)
    else if Zeros(buf, i) then ZeroRun(i)
    else if room == 0 then Full(i)
    else ScanField(buf, i + 1, room - 1)
  }

  /** Every byte the field loop passed over is neither a comma nor the start of four `'0'`. */
  lemma {:induction false} ScanFieldSkips(buf: seq<char>, i: nat, room: nat)
    ensures var r := ScanField(buf, i, room);
      forall k :: i <= k < r.at ==> k < |buf| && buf[k] != ',' && !Zeros(buf, k)
    decreases |buf| - i
  {
    if i < |buf| && buf[i] != ',' && !Zeros(buf, i) && room > 0 {
      ScanFieldSkips(buf, i + 1, room - 1);
    }
  }

  /** The bytes the field loop copied before it stopped at `r`. */
  function Copied(buf: seq<char>, i: nat, r: Scan): (c: seq<char>)
    requires i <= r.at
    ensures |c| <= r.at - i
  {
    if r.at <= |buf| then buf[i..r.at] else []
  }

  /**
   * How `process_gps_coordinates` ends: `return 0`, `return -1`, or one of
   * the three ways the code runs off an array.
   */
  datatype GpsOutcome = Located | ZeroPosition | NoMarker | Unterminated | TooLong

  function FieldOutcome(r: Scan): GpsOutcome
  {
    match r
    case Comma(_) => Located
    case ZeroRun(_) => ZeroPosition
    case Full(_) => TooLong
    case OffEnd(_) => Unterminated
  }

  /** The outcome and the bytes written to `gps_str` from its start. */
  datatype Extraction = Extraction(outcome: GpsOutcome, text: seq<char>)

  /**
   * The two field copies: the latitude from `latFrom`, then, after its
   * comma at `e`, the longitude from `e + skip`.
   */
  function Extract(buf: seq<char>, latFrom: nat, skip: nat): (x: Extraction)
    ensures |x.text| <= GpsCapacity
    ensures x.outcome != NoMarker
  {
    var lat := ScanField(buf, latFrom, GpsCapacity - |LatLabel|);
    var t1 := LatLabel + Copied(buf, latFrom, lat);
    if !lat.Comma? then Extraction(FieldOutcome(lat), t1)
    else ExtractLongitude(buf, t1, lat.at + skip)
  }

  /** The second copy: after `t1` has been written, the longitude label and the field from `lonFrom`. */
  function ExtractLongitude(buf: seq<char>, t1: seq<char>, lonFrom: nat): (x: Extraction)
    requires |t1| <= GpsCapacity
    ensures |x.text| <= GpsCapacity
    ensures x.outcome != NoMarker
  {
    if |t1| + |LonLabel| > GpsCapacity then Extraction(TooLong, t1)
    else
      var lon := ScanField(buf, lonFrom, GpsCapacity - |t1| - |LonLabel|);
      Extraction(FieldOutcome(lon), t1 + LonLabel + Copied(buf, lonFrom, lon))
  }

  /**
   * `process_gps_coordinates` as written: the search stops on the `A` of
   * `",A,"`, `i++` leaves `i` on the comma after it, so the latitude loop
   * copies nothing, and `i += 2` starts the longitude loop on the second
   * byte of the latitude.
   */
  function ProcessAsWritten(buf: seq<char>): (x: Extraction)
    ensures x.outcome == NoMarker <==> FindMarker(buf, 1).None?
    ensures |x.text| <= GpsCapacity
  {
    match FindMarker(buf, 1)
    case None => Extraction(NoMarker, [])
    case Some(m) => Extract(buf, m + 1, 2)
  }

  /** The intended arithmetic: the latitude starts after `"A,"`, the longitude after `"<lat>,N,"`. */
  function ProcessCorrected(buf: seq<char>): (x: Extraction)
    ensures x.outcome == NoMarker <==> FindMarker(buf, 1).None?
    ensures |x.text| <= GpsCapacity
  {
    match FindMarker(buf, 1)
    case None => Extraction(NoMarker, [])
    case Some(m) => Extract(buf, m + 2, 3)
  }

  /** A field value: no comma and no run of four `'0'`. */
  predicate PlainField(s: seq<char>)
  {
    ',' !in s && forall k :: 0 <= k < |s| ==> !Zeros(s, k)
  }

  /**
   * `buf` holds an RMC answer with a valid fix, `,A,<lat>,<h>,<lon>,`, its
   * `A` at `m`; `e` is the comma after the latitude.
   */
  predicate RmcFix(buf: seq<char>, m: nat, lat: seq<char>, lon: seq<char>)
  {
    var e := m + 2 + |lat|;
    && IsMarker(buf, m) && e + 3 + |lon| < |buf|
    && buf[m + 2..e] == lat && buf[e] == ',' && buf[e + 2] == ','
    && buf[e + 3..e + 3 + |lon|] == lon && buf[e + 3 + |lon|] == ','
  }

  /** The marker search from index 1 finds `m` exactly when `m` is the first marker from 1 on. */
  lemma MarkerFirst(buf: seq<char>, m: nat)
    ensures FindMarker(buf, 1) == Some(m) <==> IsMarker(buf, m) && forall k :: 1 <= k < m ==> !IsMarker(buf, k)
  {
    if IsMarker(buf, m) && forall k :: 1 <= k < m ==> !IsMarker(buf, k) {
      MarkerFrom(buf, 1, m);
    }
  }

  lemma {:induction false} MarkerFrom(buf: seq<char>, i: nat, m: nat)
    requires i <= m && IsMarker(buf, m)
    requires forall k :: i <= k < m ==> !IsMarker(buf, k)
    ensures FindMarker(buf, i) == Some(m)
    decreases m - i
  {
    if i < m {
      MarkerFrom(buf, i + 1, m);
    }
  }

  /** A plain field followed by a comma is copied whole, given room for it. */
  lemma {:induction false} ScanPlain(buf: seq<char>, i: nat, n: nat, room: nat)
    requires i + n < |buf| && buf[i + n] == ',' && n <= room
    requires forall k :: i <= k < i + n ==> buf[k] != ',' && !Zeros(buf, k)
    ensures ScanField(buf, i, room) == Comma(i + n)
    decreases n
  {
    if n > 0 {
      ScanPlain(buf, i + 1, n - 1, room - 1);
    }
  }

  /** Inside the buffer, a plain field and the comma after it hold no comma and no zero run. */
  lemma PlainInBuffer(buf: seq<char>, start: nat, s: seq<char>)
    requires PlainField(s) && start + |s| < |buf| && buf[start..start + |s|] == s && buf[start + |s|] == ','
    ensures forall k :: start <= k < start + |s| ==> buf[k] != ',' && !Zeros(buf, k)
  {
    forall k | start <= k < start + |s|
      ensures buf[k] != ',' && !Zeros(buf, k)
    {
      assert buf[k] == s[k - start];
      if k + 3 < start + |s| {
        assert !Zeros(s, k - start);
        assert s[k - start + 1] == buf[k + 1] && s[k - start + 2] == buf[k + 2] && s[k - start + 3] == buf[k + 3];
      }
    }
  }

  /** A plain field in the buffer, followed by a comma, is copied whole when it fits. */
  lemma FieldCopied(buf: seq<char>, start: nat, field: seq<char>, room: nat)
    requires PlainField(field) && |field| <= room
    requires start + |field| < |buf| && buf[start..start + |field|] == field && buf[start + |field|] == ','
    ensures ScanField(buf, start, room) == Comma(start + |field|)
    ensures Copied(buf, start, Comma(start + |field|)) == field
  {
    PlainInBuffer(buf, start, field);
    ScanPlain(buf, start, |field|, room);
  }

  /** The tail of a plain field is plain. */
  lemma PlainTail(s: seq<char>)
    requires PlainField(s) && s != []
    ensures PlainField(s[1..])
  {
    forall k | 0 <= k < |s| - 1
      ensures !Zeros(s[1..], k)
    {
      assert !Zeros(s, k + 1);
    }
  }

  /** A plain longitude field followed by a comma is copied whole after `t1`, given room for it. */
  lemma LongitudeCopied(buf: seq<char>, t1: seq<char>, lonFrom: nat, lon: seq<char>)
    requires PlainField(lon) && |t1| + |LonLabel| + |lon| <= GpsCapacity
    requires lonFrom + |lon| < |buf| && buf[lonFrom..lonFrom + |lon|] == lon && buf[lonFrom + |lon|] == ','
    ensures ExtractLongitude(buf, t1, lonFrom) == Extraction(Located, t1 + LonLabel + lon)
  {
    FieldCopied(buf, lonFrom, lon, GpsCapacity - |t1| - |LonLabel|);
  }

  /** A plain latitude field followed by a comma is copied whole, then the longitude copy runs. */
  lemma BothCopied(buf: seq<char>, latFrom: nat, skip: nat, lat: seq<char>, x: Extraction)
    requires PlainField(lat) && |LatLabel| + |lat| <= GpsCapacity
    requires latFrom + |lat| < |buf| && buf[latFrom..latFrom + |lat|] == lat && buf[latFrom + |lat|] == ','
    requires ExtractLongitude(buf, LatLabel + lat, latFrom + |lat| + skip) == x
    ensures Extract(buf, latFrom, skip) == x
  {
    var r := ScanField(buf, latFrom, GpsCapacity - |LatLabel|);
    assert r == Comma(latFrom + |lat|) && Copied(buf, latFrom, r) == lat by {
      FieldCopied(buf, latFrom, lat, GpsCapacity - |LatLabel|);
    }
  }

  /**
   * With the intended arithmetic, a valid RMC answer yields
   * `"LATITUDE <lat>LONGITUDE <lon>"` and `return 0`.
   */
  lemma CorrectedExtractsFields(buf: seq<char>, m: nat, lat: seq<char>, lon: seq<char>)
    requires RmcFix(buf, m, lat, lon) && (forall k :: 1 <= k < m ==> !IsMarker(buf, k)) && PlainField(lat) && PlainField(lon)
    requires |LatLabel| + |lat| + |LonLabel| + |lon| <= GpsCapacity
    ensures ProcessCorrected(buf) == Extraction(Located, LatLabel + lat + LonLabel + lon)
  {
    assert FindMarker(buf, 1) == Some(m) by {
      MarkerFirst(buf, m);
    }
    IntendedCopies(buf, m + 2, lat, lon);
  }

  /** From the first byte of the latitude, both fields are copied whole. */
  lemma IntendedCopies(buf: seq<char>, a: nat, lat: seq<char>, lon: seq<char>)
    requires PlainField(lat) && PlainField(lon) && |LatLabel| + |lat| + |LonLabel| + |lon| <= GpsCapacity
    requires a + |lat| + 3 + |lon| < |buf|
    requires buf[a..a + |lat|] == lat && buf[a + |lat|] == ','
    requires buf[a + |lat| + 3..a + |lat| + 3 + |lon|] == lon && buf[a + |lat| + 3 + |lon|] == ','
    ensures Extract(buf, a, 3) == Extraction(Located, LatLabel + lat + LonLabel + lon)
  {
    var x := Extraction(Located, LatLabel + lat + LonLabel + lon);
    LongitudeAfterLatitude(buf, a + |lat| + 3, lat, lon);
    BothCopied(buf, a, 3, lat, x);
  }

  lemma LongitudeAfterLatitude(buf: seq<char>, lonFrom: nat, lat: seq<char>, lon: seq<char>)
    requires PlainField(lon) && |LatLabel| + |lat| + |LonLabel| + |lon| <= GpsCapacity
    requires lonFrom + |lon| < |buf| && buf[lonFrom..lonFrom + |lon|] == lon && buf[lonFrom + |lon|] == ','
    ensures ExtractLongitude(buf, LatLabel + lat, lonFrom) == Extraction(Located, LatLabel + lat + LonLabel + lon)
  {
    LongitudeCopied(buf, LatLabel + lat, lonFrom, lon);
  }

  /**
   * As written, the same answer yields `"LATITUDE LONGITUDE "` followed by
   * the latitude without its first byte: the longitude is never read.
   */
  lemma AsWrittenLosesLatitude(buf: seq<char>, m: nat, lat: seq<char>, lon: seq<char>)
    requires RmcFix(buf, m, lat, lon) && (forall k :: 1 <= k < m ==> !IsMarker(buf, k)) && PlainField(lat) && |lat| >= 1
    requires |LatLabel| + |LonLabel| + |lat| <= GpsCapacity
    ensures ProcessAsWritten(buf) == Extraction(Located, LatLabel + LonLabel + lat[1..])
  {
    assert FindMarker(buf, 1) == Some(m) by {
      MarkerFirst(buf, m);
    }
    AsWrittenCopiesTail(buf, m + 1, lat);
  }

  /** Started on the comma before the latitude, the first copy is empty and the second takes the latitude's tail. */
  lemma AsWrittenCopiesTail(buf: seq<char>, c: nat, lat: seq<char>)
    requires c + 1 + |lat| < |buf| && buf[c] == ',' && buf[c + 1..c + 1 + |lat|] == lat && buf[c + 1 + |lat|] == ','
    requires PlainField(lat) && |lat| >= 1 && |LatLabel| + |LonLabel| + |lat| <= GpsCapacity
    ensures Extract(buf, c, 2) == Extraction(Located, LatLabel + LonLabel + lat[1..])
  {
    var e := c + 1 + |lat|;
    PlainTail(lat);
    var none: seq<char> := [];
    var lonFrom, tail := c + |none| + 2, lat[1..];
    assert lonFrom + |tail| == e;
    assert buf[c + 1..e][1..] == buf[lonFrom..e];
    assert buf[lonFrom..lonFrom + |tail|] == tail && buf[lonFrom + |tail|] == ',';
    assert LatLabel + none == LatLabel && |LatLabel + none| + |LonLabel| + |tail| <= GpsCapacity;
    LongitudeCopied(buf, LatLabel + none, lonFrom, tail);
    assert LatLabel + none + LonLabel + tail == LatLabel + LonLabel + tail;
    BothCopied(buf, c, 2, none, Extraction(Located, LatLabel + LonLabel + tail));
  }

  /** The sample answer `,A,1234.5,N,07730.1,E,` holds a fix with plain fields. */
  lemma ExampleShape(buf: seq<char>)
    requires buf == ",A,1234.5,N,07730.1,E,"
    ensures RmcFix(buf, 1, "1234.5", "07730.1") && FindMarker(buf, 1) == Some(1)
    ensures PlainField("1234.5") && PlainField("07730.1")
  {
    var lat: seq<char>, lon: seq<char> := "1234.5", "07730.1";
    assert buf[3..9] == lat && buf[12..19] == lon;
    assert lat[1] == '2' && lon[2] == '7';
  }

  /** A concrete answer on which the two differ. */
  lemma AsWrittenExample(buf: seq<char>)
    requires buf == ",A,1234.5,N,07730.1,E,"
    ensures ProcessAsWritten(buf) == Extraction(Located, LatLabel + LonLabel + "234.5")
    ensures ProcessCorrected(buf) == Extraction(Located, LatLabel + "1234.5" + LonLabel + "07730.1")
  {
    ExampleShape(buf);
    assert "1234.5"[1..] == "234.5";
    AsWrittenLosesLatitude(buf, 1, "1234.5", "07730.1");
    CorrectedExtractsFields(buf, 1, "1234.5", "07730.1");
  }

  /** An unset position (`"0000..."`) where the intended latitude starts makes the code give up with -1. */
  lemma UnsetLatitudeRejected(buf: seq<char>, m: nat)
    requires FindMarker(buf, 1) == Some(m) && Zeros(buf, m + 2)
    ensures ProcessCorrected(buf).outcome == ZeroPosition
  {
  }
}
