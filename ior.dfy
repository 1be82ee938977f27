// The complex index of refraction table: a CSV of (wavelength, value) rows
// read line by line, with headers switching between an n block and a k
// block, merged into one point per n wavelength, and evaluated at any
// wavelength by clamped linear interpolation.  Opening and reading the
// file is outside the model: the file is the sequence of its lines, and
// the extraction of two doubles from a line by a stringstream is a
// parameter.
module IorTables {
  import opened Types
  import opened RtMath

  /** One row of the merged table: wavelength in nm, real part n, extinction k. */
  datatype DataPoint = DataPoint(wavelength: real, n: real, k: real)

  /** DataPoint::operator<: order by wavelength only. */
  predicate Less(a: DataPoint, b: DataPoint)
  {
    a.wavelength < b.wavelength
  }

  /** std::complex<double>. */
  datatype Complex = Complex(re: real, im: real)

  // ---------------------------------------------------------------------
  // std::map<double, double> as the list of its entries in key order.

  datatype Entry = Entry(key: real, value: real)

  /** Keys strictly increase along the list, as a map iterates them. */
  predicate KeysIncrease(m: seq<Entry>)
  {
    forall i, j :: 0 <= i < j < |m| ==> m[i].key < m[j].key
  }

  /** The value stored under key, if any (count and operator[] on a present key). */
  function Lookup(m: seq<Entry>, key: real): (r: Option<real>)
    ensures r.Some? <==> exists i :: 0 <= i < |m| && m[i].key == key
  {
    if |m| == 0 then None
    else if m[0].key == key then Some(m[0].value)
    else
      var r := Lookup(m[1..], key);
      assert forall i :: 0 < i < |m| ==> m[i] == m[1..][i - 1];
      r
  }

  /** In a map with increasing keys, the entry at i is what Lookup finds for its key. */
  lemma {:induction false} LookupAt(m: seq<Entry>, i: int)
    requires KeysIncrease(m) && 0 <= i < |m|
    ensures Lookup(m, m[i].key) == Some(m[i].value)
  {
    if i > 0 {
      assert m[0].key < m[i].key;
      LookupAt(m[1..], i - 1);
    }
  }

  /** Assignment map[key] = value: overwrite an existing key, otherwise insert in key order. */
  function Insert(m: seq<Entry>, key: real, value: real): (r: seq<Entry>)
  {
    if |m| == 0 then [Entry(key, value)]
    else if key < m[0].key then [Entry(key, value)] + m
    else if key == m[0].key then [Entry(key, value)] + m[1..]
    else [m[0]] + Insert(m[1..], key, value)
  }

  /**
   * After map[key] = value the key holds value, every other key keeps its
   * value, no other key appears, and the keys still increase.
   */
  lemma InsertSpec(m: seq<Entry>, key: real, value: real)
    requires KeysIncrease(m)
    ensures KeysIncrease(Insert(m, key, value))
    ensures Lookup(Insert(m, key, value), key) == Some(value)
    ensures forall k :: k != key ==> Lookup(Insert(m, key, value), k) == Lookup(m, k)
    ensures forall e :: e in Insert(m, key, value) ==> e.key == key || e in m
    ensures |m| <= |Insert(m, key, value)|
  {
    InsertEntries(m, key, value);
    InsertOrdered(m, key, value);
    InsertLookup(m, key, value);
  }

  /** Insertion adds no entry other than the one for key and drops none. */
  lemma {:induction false} InsertEntries(m: seq<Entry>, key: real, value: real)
    ensures forall e :: e in Insert(m, key, value) ==> e.key == key || e in m
    ensures |m| <= |Insert(m, key, value)|
  {
    if |m| > 0 && key > m[0].key {
      InsertEntries(m[1..], key, value);
      var r := Insert(m, key, value);
      assert r[1..] == Insert(m[1..], key, value);
      forall e | e in r
        ensures e.key == key || e in m
      {
        if e != m[0] {
          assert e in r[1..];
        }
      }
    }
  }

  /** Insertion keeps the keys strictly increasing. */
  lemma {:induction false} InsertOrdered(m: seq<Entry>, key: real, value: real)
    requires KeysIncrease(m)
    ensures KeysIncrease(Insert(m, key, value))
  {
    if |m| > 0 && key > m[0].key {
      var tail := Insert(m[1..], key, value);
      InsertOrdered(m[1..], key, value);
      TailAbove(m, key, value);
      ConsIncreasing(m[0], tail);
    }
  }

  /** Every key of the map exceeds k. */
  ghost predicate KeysAbove(m: seq<Entry>, k: real)
  {
    forall i :: 0 <= i < |m| ==> k < m[i].key
  }

  /** Inserting a larger key into the tail keeps every tail key above the head's. */
  lemma TailAbove(m: seq<Entry>, key: real, value: real)
    requires KeysIncrease(m) && |m| > 0 && key > m[0].key
    ensures KeysAbove(Insert(m[1..], key, value), m[0].key)
  {
    var tail := Insert(m[1..], key, value);
    InsertEntries(m[1..], key, value);
    forall i | 0 <= i < |tail|
      ensures m[0].key < tail[i].key
    {
      if tail[i].key != key {
        assert tail[i] in m[1..];
      }
    }
  }

  /** A head below every key of an increasing tail gives an increasing map. */
  lemma ConsIncreasing(x: Entry, t: seq<Entry>)
    requires KeysIncrease(t) && KeysAbove(t, x.key)
    ensures KeysIncrease([x] + t)
  {
    var r := [x] + t;
    forall i, j | 0 <= i < j < |r|
      ensures r[i].key < r[j].key
    {
      assert r[j] == t[j - 1];
      if i > 0 {
        assert r[i] == t[i - 1];
      }
    }
  }

  /** After insertion key holds value and every other key keeps what it had. */
  lemma {:induction false} InsertLookup(m: seq<Entry>, key: real, value: real)
    ensures Lookup(Insert(m, key, value), key) == Some(value)
    ensures forall k :: k != key ==> Lookup(Insert(m, key, value), k) == Lookup(m, k)
  {
    var r := Insert(m, key, value);
    if |m| == 0 {
    } else if key < m[0].key {
      assert r[1..] == m;
    } else if key == m[0].key {
      assert r[1..] == m[1..];
    } else {
      InsertLookup(m[1..], key, value);
      assert r[1..] == Insert(m[1..], key, value);
    }
  }

  /** map::lower_bound: the position of the first key not less than key (|m| when none). */
  function LowerBoundKey(m: seq<Entry>, key: real): (r: nat)
    ensures r <= |m|
    ensures forall i :: 0 <= i < r ==> m[i].key < key
    ensures r < |m| ==> m[r].key >= key
  {
    if |m| == 0 then 0
    else if m[0].key >= key then 0
    else
      var r := LowerBoundKey(m[1..], key);
      assert forall i :: 0 < i < |m| ==> m[i] == m[1..][i - 1];
      1 + r
  }

  /** With increasing keys, every key from the lower bound on is at least key. */
  lemma {:induction false} LowerBoundKeyAbove(m: seq<Entry>, key: real)
    requires KeysIncrease(m)
    ensures forall i :: LowerBoundKey(m, key) <= i < |m| ==> m[i].key >= key
  {
    if |m| > 0 && m[0].key < key {
      LowerBoundKeyAbove(m[1..], key);
      assert forall i :: 0 < i < |m| ==> m[i] == m[1..][i - 1];
    }
  }

  // ---------------------------------------------------------------------
  // Line processing.

  /** std::replace of one character by another. */
  function ReplaceChar(s: string, from: char, to: char): (r: string)
    ensures |r| == |s|
    ensures forall i :: 0 <= i < |s| ==> r[i] == (if s[i] == from then to else s[i])
  {
    seq(|s|, i requires 0 <= i < |s| => if s[i] == from then to else s[i])
  }

  /** Commas and tabs become spaces. */
  function Normalise(line: string): (r: string)
  {
    ReplaceChar(ReplaceChar(line, ',', ' '), '\t', ' ')
  }

  /**
   * After normalising no comma or tab is left, every other character is
   * kept, and the length is unchanged.
   */
  lemma NormaliseSpec(line: string)
    ensures |Normalise(line)| == |line|
    ensures forall i :: 0 <= i < |line| ==>
      Normalise(line)[i] == (if line[i] == ',' || line[i] == '\t' then ' ' else line[i])
    ensures forall i :: 0 <= i < |line| ==> Normalise(line)[i] != ',' && Normalise(line)[i] != '\t'
  {
    var once := ReplaceChar(line, ',', ' ');
    assert forall i :: 0 <= i < |line| ==> Normalise(line)[i] == (if once[i] == '\t' then ' ' else once[i]);
  }

  /** string::find(sub) != npos. */
  function Contains(s: string, sub: string): bool
    decreases |s|
  {
    if |s| < |sub| then false
    else s[..|sub|] == sub || Contains(s[1..], sub)
  }

  /** sub occurs in s starting at position i. */
  predicate OccursAt(s: string, sub: string, i: int)
  {
    0 <= i && i + |sub| <= |s| && s[i..i + |sub|] == sub
  }

  /** The search finds sub exactly when sub occurs at some position of s. */
  lemma {:induction false} ContainsIff(s: string, sub: string)
    ensures Contains(s, sub) <==> exists i :: OccursAt(s, sub, i)
    decreases |s|
  {
    if |s| >= |sub| && |s| > 0 {
      ContainsIff(s[1..], sub);
      if Contains(s[1..], sub) {
        var i :| OccursAt(s[1..], sub, i);
        assert s[i + 1..i + 1 + |sub|] == s[1..][i..i + |sub|];
        assert OccursAt(s, sub, i + 1);
      }
      if s[..|sub|] == sub {
        assert s[0..|sub|] == s[..|sub|];
        assert OccursAt(s, sub, 0);
      }
      if exists i :: OccursAt(s, sub, i) {
        var i :| OccursAt(s, sub, i);
        if i > 0 {
          assert s[1..][i - 1..i - 1 + |sub|] == s[i..i + |sub|];
          assert OccursAt(s[1..], sub, i - 1);
        } else {
          assert s[..|sub|] == s[i..i + |sub|];
        }
      }
    } else if |s| >= |sub| {
      assert OccursAt(s, sub, 0);
    }
  }

  /** The two maps and the mode flag while the lines are read. */
  datatype ScanState = ScanState(nMap: seq<Entry>, kMap: seq<Entry>, kMode: bool)

  /**
   * One line: empty lines are skipped; after normalising, a line holding
   * "wl" is a header that selects k mode when it also holds "k" and n mode
   * otherwise; any other line whose two numbers parse stores the value
   * under wavelength * 1000 in the map of the current mode.
   */
  function LineStep(st: ScanState, line: string, parse: string -> Option<(real, real)>): ScanState
  {
    if |line| == 0 then st
    else
      var norm := Normalise(line);
      if Contains(norm, "wl") then st.(kMode := Contains(norm, "k"))
      else match parse(norm)
        case None => st
        case Some(pair) =>
          Store(st, pair.0 * 1000.0, pair.1)
  }

  /** Store value under the key (in nm) in the map of the current mode. */
  function Store(st: ScanState, wlNm: real, value: real): ScanState
  {
    if st.kMode then st.(kMap := Insert(st.kMap, wlNm, value))
    else st.(nMap := Insert(st.nMap, wlNm, value))
  }

  /** The state after the first i lines, starting from two empty maps in n mode. */
  function Scan(lines: seq<string>, i: nat, parse: string -> Option<(real, real)>): ScanState
    requires i <= |lines|
  {
    if i == 0 then ScanState([], [], false)
    else LineStep(Scan(lines, i - 1, parse), lines[i - 1], parse)
  }

  /** A data line: the line is non-empty, holds no header, and its two numbers parse. */
  predicate IsDataLine(line: string, parse: string -> Option<(real, real)>)
  {
    |line| > 0 && !Contains(Normalise(line), "wl") && parse(Normalise(line)).Some?
  }

  /**
   * Only data lines touch the maps: an empty line, a header or a line that
   * does not parse leaves both maps as they were.
   */
  lemma LineStepOtherLines(st: ScanState, line: string, parse: string -> Option<(real, real)>)
    requires !IsDataLine(line, parse)
    ensures LineStep(st, line, parse).nMap == st.nMap
    ensures LineStep(st, line, parse).kMap == st.kMap
    ensures |line| > 0 && Contains(Normalise(line), "wl") ==>
      LineStep(st, line, parse).kMode == Contains(Normalise(line), "k")
  {
  }

  /**
   * A data line sets the value under wavelength * 1000 in the map of the
   * current mode, keeps every other key of that map, keeps the other map
   * and the mode, and both maps keep increasing keys.
   */
  lemma LineStepDataLine(st: ScanState, line: string, parse: string -> Option<(real, real)>)
    requires KeysIncrease(st.nMap) && KeysIncrease(st.kMap)
    requires IsDataLine(line, parse)
    ensures var r := LineStep(st, line, parse);
      var pair := parse(Normalise(line)).value;
      var wlNm := pair.0 * 1000.0;
      KeysIncrease(r.nMap) && KeysIncrease(r.kMap) && r.kMode == st.kMode &&
      (st.kMode ==>
         (r.nMap == st.nMap && Lookup(r.kMap, wlNm) == Some(pair.1) &&
          forall k :: k != wlNm ==> Lookup(r.kMap, k) == Lookup(st.kMap, k))) &&
      (!st.kMode ==>
         (r.kMap == st.kMap && Lookup(r.nMap, wlNm) == Some(pair.1) &&
          forall k :: k != wlNm ==> Lookup(r.nMap, k) == Lookup(st.nMap, k)))
  {
    var pair := parse(Normalise(line)).value;
    assert LineStep(st, line, parse) == Store(st, pair.0 * 1000.0, pair.1);
    StoreSpec(st, pair.0 * 1000.0, pair.1);
  }

  /** Storing sets one key of the current mode's map and keeps everything else. */
  lemma StoreSpec(st: ScanState, wlNm: real, value: real)
    requires KeysIncrease(st.nMap) && KeysIncrease(st.kMap)
    ensures var r := Store(st, wlNm, value);
      KeysIncrease(r.nMap) && KeysIncrease(r.kMap) && r.kMode == st.kMode &&
      (st.kMode ==>
         (r.nMap == st.nMap && Lookup(r.kMap, wlNm) == Some(value) &&
          forall k :: k != wlNm ==> Lookup(r.kMap, k) == Lookup(st.kMap, k))) &&
      (!st.kMode ==>
         (r.kMap == st.kMap && Lookup(r.nMap, wlNm) == Some(value) &&
          forall k :: k != wlNm ==> Lookup(r.nMap, k) == Lookup(st.nMap, k)))
  {
    if st.kMode {
      InsertSpec(st.kMap, wlNm, value);
    } else {
      InsertSpec(st.nMap, wlNm, value);
    }
  }

  /** Both maps keep increasing keys through any number of lines. */
  lemma {:induction false} ScanIncreasing(lines: seq<string>, i: nat, parse: string -> Option<(real, real)>)
    requires i <= |lines|
    ensures KeysIncrease(Scan(lines, i, parse).nMap) && KeysIncrease(Scan(lines, i, parse).kMap)
  {
    if i > 0 {
      ScanIncreasing(lines, i - 1, parse);
      if IsDataLine(lines[i - 1], parse) {
        LineStepDataLine(Scan(lines, i - 1, parse), lines[i - 1], parse);
      } else {
        LineStepOtherLines(Scan(lines, i - 1, parse), lines[i - 1], parse);
      }
    }
  }

  // ---------------------------------------------------------------------
  // Merge.

  /** The matching tolerance of the merge, in nm. */
  const Tolerance: real := 1.0

  /**
   * The k value for wavelength wl: the exact match; else the first k
   * wavelength at or above wl if within the tolerance; else the one before
   * it if within the tolerance; else 0.
   */
  function KFor(kMap: seq<Entry>, wl: real): real
  {
    match Lookup(kMap, wl)
    case Some(v) => v
    case None =>
      var it := LowerBoundKey(kMap, wl);
      if it < |kMap| && Abs(kMap[it].key - wl) < Tolerance then kMap[it].value
      else if it > 0 && Abs(kMap[it - 1].key - wl) < Tolerance then kMap[it - 1].value
      else 0.0
  }

  /**
   * The k value the merge picks is the exact match when there is one, and
   * otherwise either 0 or the value of a k entry within the tolerance of wl.
   */
  lemma KForSpec(kMap: seq<Entry>, wl: real)
    requires KeysIncrease(kMap)
    ensures forall i :: 0 <= i < |kMap| && kMap[i].key == wl ==> KFor(kMap, wl) == kMap[i].value
    ensures KFor(kMap, wl) == 0.0 ||
      exists i :: 0 <= i < |kMap| && Abs(kMap[i].key - wl) < Tolerance && KFor(kMap, wl) == kMap[i].value
  {
    forall i | 0 <= i < |kMap| && kMap[i].key == wl
      ensures KFor(kMap, wl) == kMap[i].value
    {
      LookupAt(kMap, i);
    }
    match Lookup(kMap, wl)
    case Some(v) =>
      var i :| 0 <= i < |kMap| && kMap[i].key == wl;
      LookupAt(kMap, i);
      assert Abs(kMap[i].key - wl) < Tolerance;
    case None =>
  }

  /**
   * The k value nearest wl within the tolerance: the exact match; else the
   * nearer of the lower_bound entry and the one before it, the lower_bound
   * entry on a tie; else 0.
   */
  function KForNearest(kMap: seq<Entry>, wl: real): real
  {
    match Lookup(kMap, wl)
    case Some(v) => v
    case None =>
      var it := LowerBoundKey(kMap, wl);
      var above := it < |kMap| && Abs(kMap[it].key - wl) < Tolerance;
      var below := it > 0 && Abs(kMap[it - 1].key - wl) < Tolerance;
      if above && (!below || Abs(kMap[it].key - wl) <= Abs(kMap[it - 1].key - wl)) then kMap[it].value
      else if below then kMap[it - 1].value
      else 0.0
  }

  /**
   * KForNearest is the value of a k entry within the tolerance that is at
   * least as near wl as every other entry, whenever some entry is within the
   * tolerance, and 0 otherwise.
   */
  lemma KForNearestIsNearest(kMap: seq<Entry>, wl: real)
    requires KeysIncrease(kMap)
    ensures (forall i :: 0 <= i < |kMap| ==> Abs(kMap[i].key - wl) >= Tolerance) ==> KForNearest(kMap, wl) == 0.0
    ensures (exists i :: 0 <= i < |kMap| && Abs(kMap[i].key - wl) < Tolerance) ==>
      exists j :: NearestEntry(kMap, wl, j) && Abs(kMap[j].key - wl) < Tolerance && KForNearest(kMap, wl) == kMap[j].value
  {
    match Lookup(kMap, wl)
    case Some(v) =>
      var j :| 0 <= j < |kMap| && kMap[j].key == wl;
      LookupAt(kMap, j);
      assert Abs(kMap[j].key - wl) == 0.0;
      assert NearestEntry(kMap, wl, j);
    case None =>
      NearestWithoutExact(kMap, wl);
  }

  /** KForNearestIsNearest when no k entry is exactly at wl. */
  lemma NearestWithoutExact(kMap: seq<Entry>, wl: real)
    requires KeysIncrease(kMap) && Lookup(kMap, wl).None?
    ensures (forall i :: 0 <= i < |kMap| ==> Abs(kMap[i].key - wl) >= Tolerance) ==> KForNearest(kMap, wl) == 0.0
    ensures (exists i :: 0 <= i < |kMap| && Abs(kMap[i].key - wl) < Tolerance) ==>
      exists j :: NearestEntry(kMap, wl, j) && Abs(kMap[j].key - wl) < Tolerance && KForNearest(kMap, wl) == kMap[j].value
  {
    var it := LowerBoundKey(kMap, wl);
    var above := it < |kMap| && Abs(kMap[it].key - wl) < Tolerance;
    var below := it > 0 && Abs(kMap[it - 1].key - wl) < Tolerance;
    if above && (!below || Abs(kMap[it].key - wl) <= Abs(kMap[it - 1].key - wl)) {
      NearestAbove(kMap, wl);
    } else if below {
      NearestBelow(kMap, wl);
    } else {
      assert KForNearest(kMap, wl) == 0.0;
      NoneNear(kMap, wl);
    }
  }

  /** The lower_bound entry, when KForNearest picks it, is the nearest entry. */
  lemma NearestAbove(kMap: seq<Entry>, wl: real)
    requires KeysIncrease(kMap)
    requires var it := LowerBoundKey(kMap, wl);
      it < |kMap| && (it == 0 || Abs(kMap[it].key - wl) <= Abs(kMap[it - 1].key - wl))
    ensures NearestEntry(kMap, wl, LowerBoundKey(kMap, wl))
  {
    var it := LowerBoundKey(kMap, wl);
    NeighboursNearest(kMap, wl);
    forall i | 0 <= i < it
      ensures Abs(kMap[it].key - wl) <= Abs(kMap[i].key - wl)
    {
      assert Abs(kMap[it - 1].key - wl) <= Abs(kMap[i].key - wl);
    }
  }

  /** The entry before the lower_bound, when it is at least as near as the lower_bound entry, is the nearest entry. */
  lemma NearestBelow(kMap: seq<Entry>, wl: real)
    requires KeysIncrease(kMap)
    requires var it := LowerBoundKey(kMap, wl);
      it > 0 && (it == |kMap| || Abs(kMap[it - 1].key - wl) <= Abs(kMap[it].key - wl))
    ensures NearestEntry(kMap, wl, LowerBoundKey(kMap, wl) - 1)
  {
    var it := LowerBoundKey(kMap, wl);
    NeighboursNearest(kMap, wl);
    forall i | it <= i < |kMap|
      ensures Abs(kMap[it - 1].key - wl) <= Abs(kMap[i].key - wl)
    {
      assert Abs(kMap[it].key - wl) <= Abs(kMap[i].key - wl);
    }
  }

  /** When neither neighbour of the lower_bound position is within the tolerance, no entry is. */
  lemma NoneNear(kMap: seq<Entry>, wl: real)
    requires KeysIncrease(kMap)
    requires var it := LowerBoundKey(kMap, wl);
      (it < |kMap| ==> Abs(kMap[it].key - wl) >= Tolerance) && (it > 0 ==> Abs(kMap[it - 1].key - wl) >= Tolerance)
    ensures forall i :: 0 <= i < |kMap| ==> Abs(kMap[i].key - wl) >= Tolerance
  {
    var it := LowerBoundKey(kMap, wl);
    NeighboursNearest(kMap, wl);
    forall i | 0 <= i < |kMap|
      ensures Abs(kMap[i].key - wl) >= Tolerance
    {
      if i >= it {
        assert Abs(kMap[it].key - wl) <= Abs(kMap[i].key - wl);
      } else {
        assert Abs(kMap[it - 1].key - wl) <= Abs(kMap[i].key - wl);
      }
    }
  }

  /** Entry j is at least as near wl as every entry of kMap. */
  ghost predicate NearestEntry(kMap: seq<Entry>, wl: real, j: int)
  {
    0 <= j < |kMap| && forall i :: 0 <= i < |kMap| ==> Abs(kMap[j].key - wl) <= Abs(kMap[i].key - wl)
  }

  /**
   * With increasing keys, the lower_bound entry is the nearest wl among the
   * entries from it on, and the entry before it the nearest among those before.
   */
  lemma NeighboursNearest(kMap: seq<Entry>, wl: real)
    requires KeysIncrease(kMap)
    ensures var it := LowerBoundKey(kMap, wl);
      (forall i :: it <= i < |kMap| ==> Abs(kMap[it].key - wl) <= Abs(kMap[i].key - wl)) &&
      (forall i :: 0 <= i < it ==> Abs(kMap[it - 1].key - wl) <= Abs(kMap[i].key - wl))
  {
    var it := LowerBoundKey(kMap, wl);
    LowerBoundKeyAbove(kMap, wl);
    forall i | it <= i < |kMap|
      ensures Abs(kMap[it].key - wl) <= Abs(kMap[i].key - wl)
    {
      assert kMap[it].key <= kMap[i].key;
    }
    forall i | 0 <= i < it
      ensures Abs(kMap[it - 1].key - wl) <= Abs(kMap[i].key - wl)
    {
      assert kMap[i].key <= kMap[it - 1].key < wl;
    }
  }

  /**
   * The merge as written does not pick the nearest k entry: with k entries at
   * 499.5 nm and 500.9 nm and an n wavelength of 500 nm, it takes the one at
   * 500.9 nm, 0.9 nm away, over the one at 499.5 nm, 0.5 nm away.
   */
  lemma KForNotNearest()
    ensures var kMap := [Entry(499.5, 1.0), Entry(500.9, 2.0)];
      KeysIncrease(kMap) && KFor(kMap, 500.0) == 2.0 && KForNearest(kMap, 500.0) == 1.0 &&
      Abs(kMap[0].key - 500.0) < Abs(kMap[1].key - 500.0)
  {
    var kMap := [Entry(499.5, 1.0), Entry(500.9, 2.0)];
    assert kMap[1..] == [Entry(500.9, 2.0)] && kMap[1..][1..] == [];
    assert Lookup(kMap, 500.0) == None;
    assert LowerBoundKey(kMap, 500.0) == 1;
  }

  /** One data point per n entry, with the k value the merge picks for it. */
  function Merge(nMap: seq<Entry>, kMap: seq<Entry>): (data: seq<DataPoint>)
    ensures |data| == |nMap|
    ensures forall i :: 0 <= i < |nMap| ==>
      data[i] == DataPoint(nMap[i].key, nMap[i].value, KFor(kMap, nMap[i].key))
  {
    seq(|nMap|, i requires 0 <= i < |nMap| => DataPoint(nMap[i].key, nMap[i].value, KFor(kMap, nMap[i].key)))
  }

  /** Wavelengths strictly increase along the table. */
  predicate WavelengthsIncrease(data: seq<DataPoint>)
  {
    forall i, j :: 0 <= i < j < |data| ==> data[i].wavelength < data[j].wavelength
  }

  /** The merged table is ordered by wavelength, strictly, so sorting it changes nothing. */
  lemma MergeOrdered(nMap: seq<Entry>, kMap: seq<Entry>)
    requires KeysIncrease(nMap)
    ensures WavelengthsIncrease(Merge(nMap, kMap))
  {
  }

  // ---------------------------------------------------------------------
  // Evaluation.

  /**
   * std::lower_bound over data[first .. first + len) for the target
   * DataPoint(wl, 0, 0) with operator<, halving as the standard library does.
   */
  function LowerBound(data: seq<DataPoint>, first: nat, len: nat, wl: real): (r: nat)
    requires first + len <= |data|
    ensures first <= r <= first + len
    decreases len
  {
    if len == 0 then first
    else
      var half := len / 2;
      var middle := first + half;
      if Less(data[middle], DataPoint(wl, 0.0, 0.0)) then LowerBound(data, middle + 1, len - half - 1, wl)
      else LowerBound(data, first, half, wl)
  }

  /** Every wavelength in data[lo .. hi) is below wl. */
  ghost predicate AllBelow(data: seq<DataPoint>, lo: nat, hi: nat, wl: real)
    requires hi <= |data|
  {
    forall i :: lo <= i < hi ==> data[i].wavelength < wl
  }

  /** No wavelength in data[lo .. hi) is below wl. */
  ghost predicate NoneBelow(data: seq<DataPoint>, lo: nat, hi: nat, wl: real)
    requires hi <= |data|
  {
    forall i :: lo <= i < hi ==> wl <= data[i].wavelength
  }

  /** On an ordered table lower_bound is the first position whose wavelength is not below wl. */
  lemma {:induction false} LowerBoundSplits(data: seq<DataPoint>, first: nat, len: nat, wl: real)
    requires WavelengthsIncrease(data) && first + len <= |data|
    ensures var r := LowerBound(data, first, len, wl);
      AllBelow(data, first, r, wl) && NoneBelow(data, r, first + len, wl)
    decreases len, 1
  {
    if len > 0 {
      if Less(data[first + len / 2], DataPoint(wl, 0.0, 0.0)) {
        SplitsRightOfMiddle(data, first, len, wl);
      } else {
        SplitsLeftOfMiddle(data, first, len, wl);
      }
    }
  }

  /** The step where the middle wavelength is below wl: the search goes on to the right of it. */
  lemma {:induction false} SplitsRightOfMiddle(data: seq<DataPoint>, first: nat, len: nat, wl: real)
    requires WavelengthsIncrease(data) && first + len <= |data| && len > 0
    requires Less(data[first + len / 2], DataPoint(wl, 0.0, 0.0))
    ensures var r := LowerBound(data, first, len, wl);
      AllBelow(data, first, r, wl) && NoneBelow(data, r, first + len, wl)
    decreases len, 0
  {
    var half := len / 2;
    var middle := first + half;
    var hi := first + len;
    var lo: nat, rest: nat := middle + 1, len - half - 1;
    assert lo + rest == hi;
    var r := LowerBound(data, lo, rest, wl);
    LowerBoundRight(data, first, len, wl, lo, rest);
    LowerBoundSplits(data, lo, rest, wl);
    assert NoneBelow(data, r, hi, wl);
    ExtendBelow(data, first, middle, r, wl);
  }

  /** The halving step of lower_bound when the middle wavelength is below wl. */
  lemma LowerBoundRight(data: seq<DataPoint>, first: nat, len: nat, wl: real, lo: nat, rest: nat)
    requires first + len <= |data| && len > 0
    requires Less(data[first + len / 2], DataPoint(wl, 0.0, 0.0))
    requires lo == first + len / 2 + 1 && rest == len - len / 2 - 1
    ensures LowerBound(data, first, len, wl) == LowerBound(data, lo, rest, wl)
  {
  }

  /** Below-wl wavelengths right of an ordered middle below wl extend down to first. */
  lemma ExtendBelow(data: seq<DataPoint>, first: nat, middle: nat, r: nat, wl: real)
    requires WavelengthsIncrease(data) && first <= middle < r <= |data|
    requires data[middle].wavelength < wl && AllBelow(data, middle + 1, r, wl)
    ensures AllBelow(data, first, r, wl)
  {
    forall i | first <= i < middle
      ensures data[i].wavelength < wl
    {
      Increasing(data, i, middle);
    }
  }

  /** The step where the middle wavelength is not below wl: the search goes on to the left of it. */
  lemma {:induction false} SplitsLeftOfMiddle(data: seq<DataPoint>, first: nat, len: nat, wl: real)
    requires WavelengthsIncrease(data) && first + len <= |data| && len > 0
    requires !Less(data[first + len / 2], DataPoint(wl, 0.0, 0.0))
    ensures var r := LowerBound(data, first, len, wl);
      AllBelow(data, first, r, wl) && NoneBelow(data, r, first + len, wl)
    decreases len, 0
  {
    var half := len / 2;
    var middle := first + half;
    var r := LowerBound(data, first, half, wl);
    LowerBoundStep(data, first, len, wl);
    LowerBoundSplits(data, first, half, wl);
    forall i | r <= i < first + len
      ensures wl <= data[i].wavelength
    {
      if middle < i {
        Increasing(data, middle, i);
      }
    }
  }

  /** One halving step of lower_bound: the search goes on right of the middle or at its left. */
  lemma LowerBoundStep(data: seq<DataPoint>, first: nat, len: nat, wl: real)
    requires first + len <= |data| && len > 0
    ensures var middle := first + len / 2;
      LowerBound(data, first, len, wl) ==
        if Less(data[middle], DataPoint(wl, 0.0, 0.0)) then LowerBound(data, middle + 1, len - len / 2 - 1, wl)
        else LowerBound(data, first, len / 2, wl)
  {
  }

  lemma Increasing(data: seq<DataPoint>, i: nat, j: nat)
    requires WavelengthsIncrease(data) && i < j < |data|
    ensures data[i].wavelength < data[j].wavelength
  {
  }

  /** The position lower_bound finds for a wavelength strictly inside the table's range. */
  function Bracket(data: seq<DataPoint>, wl: real): (it: nat)
    requires WavelengthsIncrease(data) && |data| >= 1
    requires data[0].wavelength < wl < data[|data| - 1].wavelength
    ensures 1 <= it < |data|
    ensures data[it - 1].wavelength < wl <= data[it].wavelength
  {
    LowerBoundSplits(data, 0, |data|, wl);
    LowerBound(data, 0, |data|, wl)
  }

  /** The interpolation parameter between two bracketing points. */
  function Param(p1: DataPoint, p2: DataPoint, wl: real): (t: real)
    requires p1.wavelength < wl <= p2.wavelength
    ensures 0.0 < t <= 1.0
    ensures wl == p2.wavelength ==> t == 1.0
  {
    var t := (wl - p1.wavelength) / (p2.wavelength - p1.wavelength);
    assert t * (p2.wavelength - p1.wavelength) == wl - p1.wavelength;
    t
  }

  /** The table lookup of evaluate, on the table's points. */
  function Interpolate(data: seq<DataPoint>, wl: real): Complex
    requires WavelengthsIncrease(data)
  {
    if |data| == 0 then Complex(1.0, 0.0)
    else if wl <= data[0].wavelength then Complex(data[0].n, data[0].k)
    else if wl >= data[|data| - 1].wavelength then Complex(data[|data| - 1].n, data[|data| - 1].k)
    else
      var it := Bracket(data, wl);
      var p2 := data[it];
      var p1 := data[it - 1];
      var t := Param(p1, p2, wl);
      Complex(p1.n + (p2.n - p1.n) * t, p1.k + (p2.k - p1.k) * t)
  }

  /** Strictly inside the range, each interpolated component lies between the bracketing points' values. */
  lemma InterpolateBetween(data: seq<DataPoint>, wl: real)
    requires WavelengthsIncrease(data) && |data| >= 1
    requires data[0].wavelength < wl < data[|data| - 1].wavelength
    ensures var it := Bracket(data, wl);
      var p1, p2 := data[it - 1], data[it];
      var c := Interpolate(data, wl);
      p1.wavelength < wl <= p2.wavelength &&
      Min(p1.n, p2.n) <= c.re <= Max(p1.n, p2.n) &&
      Min(p1.k, p2.k) <= c.im <= Max(p1.k, p2.k)
  {
    var it := Bracket(data, wl);
    InterpolantBetween(data[it - 1], data[it], wl);
  }

  class IORInterpolator {
    var data: seq<DataPoint>

    /** The table is ordered by strictly increasing wavelength. */
    ghost predicate Valid()
      reads this
    {
      WavelengthsIncrease(data)
    }

    /** The default constructor: an empty table. */
    constructor ()
      ensures data == [] && Valid()
    {
      data := [];
    }

    /**
     * loadCSV on the file's lines: scan every line into the n and k maps;
     * with no n value it reports failure and leaves the table as it was;
     * otherwise the table becomes the merge of the two maps, one point per
     * n wavelength in increasing order.
     */
    method LoadCSV(lines: seq<string>, parse: string -> Option<(real, real)>) returns (ok: bool)
      requires Valid()
      modifies this
      ensures Valid()
      ensures var st := Scan(lines, |lines|, parse);
        ok == (|st.nMap| > 0) &&
        (ok ==> data == Merge(st.nMap, st.kMap)) &&
        (!ok ==> data == old(data))
    {
      var nMap: seq<Entry> := [];
      var kMap: seq<Entry> := [];
      var readingK := false;
      var i := 0;
      while i < |lines|
        invariant 0 <= i <= |lines|
        invariant ScanState(nMap, kMap, readingK) == Scan(lines, i, parse)
      {
        var line := lines[i];
        i := i + 1;
        if |line| == 0 {
          continue;
        }
        line := ReplaceChar(line, ',', ' ');
        line := ReplaceChar(line, '\t', ' ');
        if Contains(line, "wl") {
          if Contains(line, "k") {
            readingK := true;
          } else {
            readingK := false;
          }
          continue;
        }
        var parsed := parse(line);
        if parsed.Some? {
          var wlNm := parsed.value.0 * 1000.0;
          if readingK {
            kMap := Insert(kMap, wlNm, parsed.value.1);
          } else {
            nMap := Insert(nMap, wlNm, parsed.value.1);
          }
        }
      }
      if |nMap| == 0 {
        return false;
      }
      ScanIncreasing(lines, |lines|, parse);
      var merged := MergeMaps(nMap, kMap);
      // std::sort: the merged table already has strictly increasing
      // wavelengths, so sorting it leaves it unchanged.
      MergeOrdered(nMap, kMap);
      data := merged;
      return true;
    }

    /** The merge loop of loadCSV: one point per n entry, with the k value matched to its wavelength. */
    static method MergeMaps(nMap: seq<Entry>, kMap: seq<Entry>) returns (merged: seq<DataPoint>)
      ensures merged == Merge(nMap, kMap)
    {
      merged := [];
      var j := 0;
      while j < |nMap|
        invariant 0 <= j <= |nMap|
        invariant |merged| == j
        invariant forall i :: 0 <= i < j ==>
          merged[i] == DataPoint(nMap[i].key, nMap[i].value, KFor(kMap, nMap[i].key))
      {
        var kVal := MatchK(kMap, nMap[j].key);
        merged := merged + [DataPoint(nMap[j].key, nMap[j].value, kVal)];
        j := j + 1;
      }
    }

    /**
     * The k value for wavelength wl: the exact entry, else the entry at
     * lower_bound or the one before it when within the tolerance, else 0.
     */
    static method MatchK(kMap: seq<Entry>, wl: real) returns (kVal: real)
      ensures kVal == KFor(kMap, wl)
    {
      kVal := 0.0;
      var exact := Lookup(kMap, wl);
      if exact.Some? {
        kVal := exact.value;
      } else {
        var it := LowerBoundKey(kMap, wl);
        if it < |kMap| && Abs(kMap[it].key - wl) < Tolerance {
          kVal := kMap[it].value;
        } else if it > 0 {
          if Abs(kMap[it - 1].key - wl) < Tolerance {
            kVal := kMap[it - 1].value;
          }
        }
      }
    }

    /**
     * evaluate: (1, 0) for an empty table; the first point's (n, k) at or
     * below its wavelength and the last point's at or above its wavelength;
     * in between, the linear interpolation between the bracketing points.
     */
    function Evaluate(wl: real): (c: Complex)
      reads this
      requires Valid()
      ensures |data| == 0 ==> c == Complex(1.0, 0.0)
      ensures |data| > 0 && wl <= data[0].wavelength ==> c == Complex(data[0].n, data[0].k)
      ensures |data| > 0 && data[0].wavelength < wl && wl >= data[|data| - 1].wavelength ==>
        c == Complex(data[|data| - 1].n, data[|data| - 1].k)
    {
      Interpolate(data, wl)
    }

    /** At a stored wavelength the table gives back exactly the stored (n, k). */
    lemma EvaluateAtSample(i: int)
      requires Valid() && 0 <= i < |data|
      ensures Evaluate(data[i].wavelength) == Complex(data[i].n, data[i].k)
    {
      var wl := data[i].wavelength;
      if 0 < i < |data| - 1 {
        var it := Bracket(data, wl);
        var t := Param(data[it - 1], data[it], wl);
        assert t == 1.0;
      } else if i == |data| - 1 && i > 0 {
        assert data[0].wavelength < wl;
      }
    }

    /**
     * Strictly inside the range, the result interpolates between the two
     * points around wl with a parameter in (0, 1], so each component lies
     * between the neighbours' values.
     */
    lemma EvaluateBetween(wl: real)
      requires Valid() && |data| >= 1 && data[0].wavelength < wl < data[|data| - 1].wavelength
      ensures var it := Bracket(data, wl);
        var p1, p2 := data[it - 1], data[it];
        var c := Evaluate(wl);
        p1.wavelength < wl <= p2.wavelength &&
        Min(p1.n, p2.n) <= c.re <= Max(p1.n, p2.n) &&
        Min(p1.k, p2.k) <= c.im <= Max(p1.k, p2.k)
    {
      InterpolateBetween(data, wl);
    }
  }

  /** Both interpolated components lie between the neighbours' values. */
  lemma InterpolantBetween(p1: DataPoint, p2: DataPoint, wl: real)
    requires p1.wavelength < wl <= p2.wavelength
    ensures var t := Param(p1, p2, wl);
      Min(p1.n, p2.n) <= p1.n + (p2.n - p1.n) * t <= Max(p1.n, p2.n) &&
      Min(p1.k, p2.k) <= p1.k + (p2.k - p1.k) * t <= Max(p1.k, p2.k)
  {
    var t := Param(p1, p2, wl);
    Between(p1.n, p2.n, t);
    Between(p1.k, p2.k, t);
  }

  /** a + (b - a) t lies between a and b for t in [0, 1]. */
  lemma Between(a: real, b: real, t: real)
    requires 0.0 <= t <= 1.0
    ensures Min(a, b) <= a + (b - a) * t <= Max(a, b)
  {
    LerpBetween(a, b, t);
    assert a + (b - a) * t == Lerp(a, b, t);
  }
}
