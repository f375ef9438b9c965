/**
 The row-to-record mapping of `getClientData`: the first row of the sheet holds
 the headers, each normalized into a field key, and every later row becomes a
 record from those keys to its cells.

 The spreadsheet read itself is not modelled: its result is a parameter, `None`
 when the API call threw or the response held no `values`.
 */
module Sheets {
  import opened Wrappers
  import Text

  type Row = seq<string>
  type Record = map<string, string>

  /** `header.trim().toLowerCase().replace(/\s+/g, '_')` (line 53). */
  function NormalizeHeader(h: string): (k: string)
    ensures Text.NoSpace(k)
    ensures |k| <= |h|
  {
    var lowered := Text.Lower(Text.Trim(h));
    Text.CollapseSpacesNoSpace(lowered);
    Text.CollapseSpaces(lowered)
  }

  /** A key holds no upper-case ASCII letter. */
  lemma KeyIsLowerCase(h: string)
    ensures forall i :: 0 <= i < |NormalizeHeader(h)| ==> !Text.IsUpper(NormalizeHeader(h)[i])
  {
    var lowered := Text.Lower(Text.Trim(h));
    var k := Text.CollapseSpaces(lowered);
    Text.CollapseSpacesChars(lowered);
    forall i | 0 <= i < |k| ensures !Text.IsUpper(k[i]) {
      if k[i] != '_' {
        var j :| 0 <= j < |lowered| && lowered[j] == k[i];
      }
    }
  }

  /** Normalizing a key again changes nothing. */
  lemma NormalizeHeaderIdempotent(h: string)
    ensures NormalizeHeader(NormalizeHeader(h)) == NormalizeHeader(h)
  {
    var k := NormalizeHeader(h);
    Text.TrimShape(k);
    KeyIsLowerCase(h);
    assert Text.Lower(k) == k;
    Text.CollapseSpacesFixpoint(k);
  }

  /** `Phone Number` has no white space at either end. */
  lemma PhoneNumberTrimmed(h: string)
    requires h == "Phone Number"
    ensures Text.Trim(h) == h
  {
    assert Text.TrimStartAt(h, 0) == 0;
    assert Text.TrimEndAt(h, 0, |h|) == |h|;
  }

  lemma PhoneNumberLowered(h: string)
    requires h == "Phone Number"
    ensures Text.Lower(h) == "phone" + " " + "number"
  {
  }

  /** Lower-case ASCII letters only. */
  predicate LowerWord(w: string) {
    forall i :: 0 <= i < |w| ==> 'a' <= w[i] <= 'z'
  }

  /** Two lower-case words with a single space between them are joined by `_`. */
  lemma WordsJoined(a: string, b: string)
    requires a != [] && b != [] && LowerWord(a) && LowerWord(b)
    ensures Text.CollapseSpaces(a + " " + b) == a + "_" + b
  {
    assert Text.NoSpace(a);
    assert Text.NoSpace(b);
    Text.CollapseSpacesFixpoint(a);
    Text.CollapseSpacesFixpoint(b);
    Text.CollapseRun(a, " ", b);
  }

  lemma PhoneNumberCollapsed(l: string)
    requires l == "phone" + " " + "number"
    ensures Text.CollapseSpaces(l) == "phone_number"
  {
    WordsJoined("phone", "number");
  }

  /** The header `Phone Number` gives the key `phone_number`, the field the
      campaign reads a client's number from. */
  lemma PhoneNumberHeader(h: string)
    requires h == "Phone Number"
    ensures NormalizeHeader(h) == "phone_number"
  {
    PhoneNumberTrimmed(h);
    PhoneNumberLowered(h);
    PhoneNumberCollapsed(Text.Lower(Text.Trim(h)));
  }

  /** The keys of a header row, position by position. */
  function Headers(header: Row): (keys: seq<string>)
    ensures |keys| == |header|
    ensures forall i :: 0 <= i < |keys| ==> keys[i] == NormalizeHeader(header[i])
  {
    seq(|header|, i requires 0 <= i < |header| => NormalizeHeader(header[i]))
  }

  /** `row[index] || ''`: the cell, or the empty string past the end of the row. */
  function Cell(row: Row, i: nat): (v: string)
    ensures i < |row| ==> v == row[i]
    ensures i >= |row| ==> v == ""
  {
    if i < |row| then row[i] else ""
  }

  /** No header after position `i` and before position `n` has the same key as
      the one at `i`. */
  predicate LastWithKey(keys: seq<string>, i: nat, n: nat)
    requires i < n <= |keys|
  {
    forall j :: i < j < n ==> keys[j] != keys[i]
  }

  /** The keys among the first `n` headers. */
  function KeySet(keys: seq<string>, n: nat): (ks: set<string>)
    requires n <= |keys|
    ensures forall i :: 0 <= i < n ==> keys[i] in ks
  {
    if n == 0 then {} else KeySet(keys, n - 1) + {keys[n - 1]}
  }

  /** All the keys of the header row are in the key set, and nothing else is. */
  lemma {:induction false} KeySetIsKeys(keys: seq<string>, n: nat)
    requires n <= |keys|
    ensures KeySet(keys, n) == set k | k in keys[..n]
  {
    if n > 0 {
      KeySetIsKeys(keys, n - 1);
      assert keys[..n] == keys[..n - 1] + [keys[n - 1]];
    }
  }

  /** The `forEach` of lines 56-58 after its first `n` iterations: the record
      holds the first `n` keys, and each key maps to the cell of the last column
      (so far) that carries it. */
  function Assign(keys: seq<string>, row: Row, n: nat): (r: Record)
    requires n <= |keys|
    ensures r.Keys == KeySet(keys, n)
    ensures forall i :: 0 <= i < n && LastWithKey(keys, i, n) ==> r[keys[i]] == Cell(row, i)
  {
    if n == 0 then map[]
    else Assign(keys, row, n - 1)[keys[n - 1] := Cell(row, n - 1)]
  }

  /** One data row as a client record (lines 54-59): the keys are exactly the
      normalized headers, extra cells are dropped, a missing cell reads as the
      empty string, and when two headers share a key the later column wins. */
  function ToRecord(keys: seq<string>, row: Row): (r: Record)
    ensures r.Keys == KeySet(keys, |keys|)
    ensures forall i :: 0 <= i < |keys| && LastWithKey(keys, i, |keys|) ==> r[keys[i]] == Cell(row, i)
  {
    Assign(keys, row, |keys|)
  }

  /** `rows.map(row => ...)`: one record per row, in order. */
  function ToRecords(keys: seq<string>, rows: seq<Row>): (records: seq<Record>)
    ensures |records| == |rows|
    ensures forall k :: 0 <= k < |rows| ==> records[k] == ToRecord(keys, rows[k])
  {
    if rows == [] then [] else [ToRecord(keys, rows[0])] + ToRecords(keys, rows[1..])
  }

  /** `getClientData` given what the sheet read returned (lines 46-63): nothing
      without a data row below the header, otherwise one record per data row,
      in sheet order. */
  function GetClientData(fetched: Option<seq<Row>>): (records: seq<Record>)
    ensures fetched.None? || |fetched.value| <= 1 ==> records == []
    ensures fetched.Some? && |fetched.value| > 1 ==>
              |records| == |fetched.value| - 1
              && forall k :: 0 <= k < |records| ==>
                   records[k] == ToRecord(Headers(fetched.value[0]), fetched.value[k + 1])
  {
    if fetched.None? || |fetched.value| <= 1 then []
    else ToRecords(Headers(fetched.value[0]), fetched.value[1..])
  }

  /** The keys of a header row are the normalized headers. */
  lemma HeaderKeys(header: Row)
    ensures (set k | k in Headers(header)) == (set h | h in header :: NormalizeHeader(h))
  {
    var keys := Headers(header);
    forall h | h in header ensures NormalizeHeader(h) in keys {
      var i :| 0 <= i < |header| && header[i] == h;
      assert keys[i] == NormalizeHeader(h);
    }
  }

  /** The key set of every record is exactly the set of normalized headers (so a
      cell to the right of the last header never shows up), and no key holds
      white space. */
  lemma RecordKeys(fetched: Option<seq<Row>>, k: nat)
    requires fetched.Some? && |fetched.value| > 1 && k < |fetched.value| - 1
    ensures GetClientData(fetched)[k].Keys == (set h | h in fetched.value[0] :: NormalizeHeader(h))
    ensures forall key :: key in GetClientData(fetched)[k] ==> Text.NoSpace(key)
  {
    var keys := Headers(fetched.value[0]);
    var r := GetClientData(fetched)[k];
    assert r.Keys == KeySet(keys, |keys|);
    KeySetIsKeys(keys, |keys|);
    assert keys[..|keys|] == keys;
    HeaderKeys(fetched.value[0]);
  }
}
