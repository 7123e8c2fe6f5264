/** The CSV result file: save_to_csv writes it one record at a time and
    get_completed_menus reads back the names whose status is success.
    The file is its sequence of records; the header line is a record like
    the others, the first one. */
module ResultStore {
  import opened Wrappers
  import opened Recipe

  /** The result file: whether it exists, and its records in file order. */
  datatype FileState = FileState(present: bool, records: seq<Row>)

  /** A missing file has no records. */
  predicate Consistent(s: FileState) {
    !s.present ==> s.records == []
  }

  /** The file starts with the header save_to_csv writes (or is empty). */
  predicate HeaderFirst(s: FileState) {
    s.records == [] || s.records[0] == Header
  }

  /** A record's values in column order. */
  function Fields(rec: Row): (f: seq<string>)
    ensures |f| == 5
  {
    [rec.name, rec.thinking, rec.result, rec.status, rec.requestTime]
  }

  /** csv.DictReader's row.get(key): the record's value in the column whose
      field name is `key`; with a repeated field name the last column wins,
      as in dict(zip(fieldnames, row)). */
  function Lookup(keys: Row, rec: Row, key: string): (r: Option<string>)
    ensures r.None? <==> key !in Fields(keys)
    ensures r.Some? ==> exists i :: 0 <= i < 5 && Fields(keys)[i] == key && r.value == Fields(rec)[i]
                                    && forall j :: i < j < 5 ==> Fields(keys)[j] != key
  {
    var f := Fields(keys);
    if keys.requestTime == key then assert f[4] == key; Some(rec.requestTime)
    else if keys.status == key then assert f[3] == key; Some(rec.status)
    else if keys.result == key then assert f[2] == key; Some(rec.result)
    else if keys.thinking == key then assert f[1] == key; Some(rec.thinking)
    else if keys.name == key then assert f[0] == key; Some(rec.name)
    else None
  }

  /** row.get('状态') == 'success' */
  predicate IsSuccessRecord(keys: Row, rec: Row) {
    Lookup(keys, rec, Header.status) == Some(Success)
  }

  /** row.get('食谱名', '') */
  function NameOf(keys: Row, rec: Row): string {
    OrEmpty(Lookup(keys, rec, Header.name))
  }

  /** The names collected from the data records `rows` read under field names `keys`. */
  function SuccessNames(keys: Row, rows: seq<Row>): set<string>
    decreases |rows|
  {
    if rows == [] then {}
    else
      var last := rows[|rows| - 1];
      SuccessNames(keys, rows[..|rows| - 1]) + (if IsSuccessRecord(keys, last) then {NameOf(keys, last)} else {})
  }

  /** The records the reader delivers before raising at record `fault`
      (0 is the header line); None when the whole file reads cleanly. */
  function Readable(records: seq<Row>, fault: Option<nat>): (r: seq<Row>)
    ensures r <= records
  {
    if fault.Some? && fault.value < |records| then records[..fault.value] else records
  }

  /** get_completed_menus: no file gives the empty set; otherwise the first
      record names the fields and the success records of what was read
      before any read error give their names. */
  function ScanCompleted(s: FileState, fault: Option<nat>): (r: set<string>)
    ensures !s.present || fault == Some(0) ==> r == {}
    ensures s.present && HeaderFirst(s) && s.records != [] && fault == None ==> r == HeaderSuccessNames(s.records[1..])
  {
    var rs := Readable(s.records, fault);
    if !s.present || rs == [] then {} else SuccessNames(rs[0], rs[1..])
  }

  /** The names of the success records among `rows`, read under the header this program writes. */
  function HeaderSuccessNames(rows: seq<Row>): set<string> {
    SuccessNames(Header, rows)
  }

  /** Under this program's header a record is read field by field. */
  lemma HeaderLookup(rec: Row)
    ensures IsSuccessRecord(Header, rec) <==> rec.status == Success
    ensures NameOf(Header, rec) == rec.name
  {
    assert Header.requestTime != Header.status by { assert |Header.requestTime| != |Header.status|; }
    assert Header.requestTime != Header.name by { assert |Header.requestTime| != |Header.name|; }
    assert Header.status != Header.name by { assert Header.status[0] != Header.name[0]; }
    assert Header.result != Header.name by { assert |Header.result| != |Header.name|; }
    assert Header.thinking != Header.name by { assert |Header.thinking| != |Header.name|; }
    assert Header.result != Header.status by { assert |Header.result| != |Header.status|; }
    assert Header.thinking != Header.status by { assert |Header.thinking| != |Header.status|; }
  }

  /** A name is collected exactly when some record carries it with status success. */
  lemma HeaderSuccessNamesSpec(rows: seq<Row>, x: string)
    ensures x in HeaderSuccessNames(rows) <==>
              exists i :: 0 <= i < |rows| && rows[i].name == x && rows[i].status == Success
  {
    SuccessNamesSpec(Header, rows, x);
    forall i | 0 <= i < |rows|
      ensures IsSuccessRecord(Header, rows[i]) <==> rows[i].status == Success
      ensures NameOf(Header, rows[i]) == rows[i].name
    {
      HeaderLookup(rows[i]);
    }
  }

  /** Reading more records never loses a name: the scan distributes over concatenation. */
  lemma {:induction false} SuccessNamesAppend(keys: Row, rows: seq<Row>, more: seq<Row>)
    ensures SuccessNames(keys, rows + more) == SuccessNames(keys, rows) + SuccessNames(keys, more)
    decreases |more|
  {
    if more == [] {
      assert rows + more == rows;
    } else {
      var init := more[..|more| - 1];
      SuccessNamesAppend(keys, rows, init);
      assert (rows + more)[..|rows + more| - 1] == rows + init;
    }
  }

  /** A read error can only hide names, never invent them. */
  lemma ScanWithFaultIsSubset(s: FileState, fault: Option<nat>)
    ensures ScanCompleted(s, fault) <= ScanCompleted(s, None)
  {
    var rs := Readable(s.records, fault);
    if s.present && rs != [] {
      var tail := s.records[|rs|..];
      assert s.records[1..] == rs[1..] + tail;
      SuccessNamesAppend(rs[0], rs[1..], tail);
    }
  }

  /** Under any field names, a name is collected exactly when some record
      is read as a success record carrying it. */
  lemma {:induction false} SuccessNamesSpec(keys: Row, rows: seq<Row>, x: string)
    ensures x in SuccessNames(keys, rows) <==>
              exists i :: 0 <= i < |rows| && IsSuccessRecord(keys, rows[i]) && NameOf(keys, rows[i]) == x
    decreases |rows|
  {
    if rows != [] {
      var init := rows[..|rows| - 1];
      SuccessNamesSpec(keys, init, x);
      assert forall i :: 0 <= i < |init| ==> init[i] == rows[i];
    }
  }

  /** A read error at record `n` keeps what was read before it: the scan
      then finds exactly what a clean scan of the first `n` records finds. */
  lemma PartialScanIsCleanScanOfPrefix(s: FileState, n: nat)
    requires n <= |s.records|
    ensures ScanCompleted(s, Some(n)) == ScanCompleted(FileState(s.present, s.records[..n]), None)
    ensures s.present && HeaderFirst(s) && 1 <= n ==> ScanCompleted(s, Some(n)) == HeaderSuccessNames(s.records[1..n])
  {
    assert Readable(s.records, Some(n)) == s.records[..n];
    assert Readable(s.records[..n], None) == s.records[..n];
    if 1 <= n {
      assert s.records[..n][1..] == s.records[1..n];
    }
  }

  /** Failed records never make a name completed: a name that no success
      record carries is not found by a clean scan. */
  lemma FailedOnlyNameNotCompleted(s: FileState, x: string)
    requires HeaderFirst(s)
    requires forall i :: 1 <= i < |s.records| && s.records[i].name == x ==> s.records[i].status != Success
    ensures x !in ScanCompleted(s, None)
  {
    if s.present && s.records != [] {
      var rows := s.records[1..];
      HeaderSuccessNamesSpec(rows, x);
    }
  }

  /** The result file as an object: save_to_csv changes it, get_completed_menus reads it. */
  class ResultFile {
    var present: bool
    var records: seq<Row>

    ghost predicate Valid()
      reads this
    {
      Consistent(State())
    }

    function State(): FileState
      reads this
    {
      FileState(present, records)
    }

    /** No result file yet. */
    constructor Missing()
      ensures Valid() && !present && records == []
    {
      present, records := false, [];
    }

    /** A result file left by earlier runs. */
    constructor Existing(records: seq<Row>)
      ensures Valid() && present && this.records == records
    {
      present, this.records := true, records;
    }

    /** save_to_csv: 'w' mode (isNewFile) truncates the file and writes the
        header before the record; 'a' mode appends the record, creating the
        file without a header if it is missing. */
    method Save(row: Row, isNewFile: bool)
      requires Valid()
      modifies this
      ensures Valid() && present
      ensures records == (if isNewFile then [Header, row] else old(records) + [row])
    {
      if isNewFile {
        records := [Header, row];
      } else {
        records := records + [row];
      }
      present := true;
    }

    /** get_completed_menus, with the record at which reading raises as `fault`. */
    method CompletedMenus(fault: Option<nat>) returns (completed: set<string>)
      ensures completed == ScanCompleted(State(), fault)
    {
      completed := {};
      if !present {
        return;
      }
      var rs := Readable(records, fault);
      if rs == [] {
        return;
      }
      var keys := rs[0];
      var rows := rs[1..];
      var i := 0;
      while i < |rows|
        invariant 0 <= i <= |rows|
        invariant completed == SuccessNames(keys, rows[..i])
      {
        var row := rows[i];
        assert rows[..i + 1][..i] == rows[..i];
        if IsSuccessRecord(keys, row) {
          completed := completed + {NameOf(keys, row)};
        }
        i := i + 1;
      }
      assert rows[..i] == rows;
    }
  }
}
