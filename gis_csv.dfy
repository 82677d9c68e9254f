/**
  The detector's GIS table writer: the attributes of one pole are upserted into the table, the
  rows carrying the pole's id updated in place, or a new row appended when there is none, or a
  one-row table created when the file does not exist yet.
 */
module GisCsv {
  import InfraDetect

  /** A table row (or the attributes to write): column name to cell text. */
  type Row = map<string, string>

  /** The table's columns, in the order they are written. */
  const FieldNames: seq<string> := ["pole_id", "tag_name", "pole_type", "vegetation_encroachment", "from_ocr"]

  /** The detector's attributes as the row they are written as; the flag is written `True` or `False`. */
  function AttributesRow(a: InfraDetect.Attributes): (row: Row)
    ensures forall k :: k in row <==> k in FieldNames
    ensures PoleIdOf(row) == a.poleId
    ensures row["vegetation_encroachment"] == (if a.vegetation then "True" else "False")
    ensures row["tag_name"] == a.tagName && row["pole_type"] == a.poleType.Name() && row["from_ocr"] == a.fromOcr
  {
    map[
      "pole_id" := a.poleId, "tag_name" := a.tagName, "pole_type" := a.poleType.Name(),
      "vegetation_encroachment" := if a.vegetation then "True" else "False", "from_ocr" := a.fromOcr
    ]
  }

  /** The detector's row already has every column, so writing it as a new row keeps it as it is. */
  lemma AttributesRowIsNew(a: InfraDetect.Attributes)
    ensures NewRow(AttributesRow(a)) == AttributesRow(a)
  {
  }

  /** `attributes.get('pole_id')`, with a missing id read as the empty (falsy) text. */
  function PoleIdOf(attrs: Row): (pid: string)
    ensures pid != "" ==> "pole_id" in attrs && attrs["pole_id"] == pid
    ensures "pole_id" in attrs ==> pid == attrs["pole_id"]
  {
    if "pole_id" in attrs then attrs["pole_id"] else ""
  }

  /** The row's `pole_id` cell is `pid`. */
  predicate HasId(row: Row, pid: string) {
    "pole_id" in row && row["pole_id"] == pid
  }

  /** `pole_id in df['pole_id'].values` */
  predicate HasRow(rows: seq<Row>, pid: string) {
    exists i :: 0 <= i < |rows| && HasId(rows[i], pid)
  }

  /** `{k: attributes.get(k, '') for k in fieldnames}` */
  function NewRow(attrs: Row): (row: Row)
    ensures row.Keys == set k | k in FieldNames
    ensures forall k :: k in row ==> row[k] == if k in attrs then attrs[k] else ""
  {
    map k | k in FieldNames :: if k in attrs then attrs[k] else ""
  }

  /** `row` with the cells of `fields` that `attrs` holds overwritten, one field after another. */
  function Overwrite(row: Row, attrs: Row, fields: seq<string>): Row {
    if fields == [] then row
    else
      var r := Overwrite(row, attrs, fields[..|fields| - 1]);
      var f := fields[|fields| - 1];
      if f in attrs then r[f := attrs[f]] else r
  }

  /** The overwritten row holds the attribute of every written field and the old cell everywhere else. */
  lemma {:induction false} OverwriteContents(row: Row, attrs: Row, fields: seq<string>)
    ensures var r := Overwrite(row, attrs, fields);
      && (forall k :: k in r <==> k in row || (k in fields && k in attrs))
      && (forall k :: k in r ==> r[k] == if k in fields && k in attrs then attrs[k] else row[k])
  {
    if fields != [] {
      var init := fields[..|fields| - 1];
      OverwriteContents(row, attrs, init);
      assert fields == init + [fields[|fields| - 1]];
    }
  }

  /** Overwriting twice with the same attributes is overwriting once. */
  lemma OverwriteIdempotent(row: Row, attrs: Row, fields: seq<string>)
    ensures Overwrite(Overwrite(row, attrs, fields), attrs, fields) == Overwrite(row, attrs, fields)
  {
    var once := Overwrite(row, attrs, fields);
    OverwriteContents(row, attrs, fields);
    OverwriteContents(once, attrs, fields);
  }

  /** Writing the pole's own id keeps the id of the pole's rows. */
  lemma OverwriteKeepsId(row: Row, attrs: Row, fields: seq<string>, pid: string)
    requires "pole_id" in attrs ==> attrs["pole_id"] == pid
    requires HasId(row, pid)
    ensures HasId(Overwrite(row, attrs, fields), pid)
  {
    OverwriteContents(row, attrs, fields);
  }

  /** `df.loc[df['pole_id'] == pole_id, field] = value` */
  function SetWhere(rows: seq<Row>, pid: string, field: string, value: string): (r: seq<Row>)
    ensures |r| == |rows|
    ensures forall i :: 0 <= i < |rows| ==> r[i] == if HasId(rows[i], pid) then rows[i][field := value] else rows[i]
  {
    if rows == [] then []
    else
      var init := SetWhere(rows[..|rows| - 1], pid, field, value);
      var last := rows[|rows| - 1];
      init + [if HasId(last, pid) then last[field := value] else last]
  }

  /** Every row carrying `pid` with the cells of `fields` overwritten; the other rows as they are. */
  function Updated(rows: seq<Row>, pid: string, attrs: Row, fields: seq<string>): (r: seq<Row>)
    ensures |r| == |rows|
    ensures forall i :: 0 <= i < |rows| ==> r[i] == if HasId(rows[i], pid) then Overwrite(rows[i], attrs, fields) else rows[i]
  {
    if rows == [] then []
    else
      var init := Updated(rows[..|rows| - 1], pid, attrs, fields);
      var last := rows[|rows| - 1];
      init + [if HasId(last, pid) then Overwrite(last, attrs, fields) else last]
  }

  /** Assigning one more field over the pole's rows extends the overwrite by that field. */
  lemma UpdatedStep(rows: seq<Row>, pid: string, attrs: Row, fields: seq<string>, field: string)
    requires "pole_id" in attrs ==> attrs["pole_id"] == pid
    ensures field in attrs ==>
      SetWhere(Updated(rows, pid, attrs, fields), pid, field, attrs[field]) == Updated(rows, pid, attrs, fields + [field])
    ensures field !in attrs ==> Updated(rows, pid, attrs, fields) == Updated(rows, pid, attrs, fields + [field])
  {
    var cur := Updated(rows, pid, attrs, fields);
    var next := Updated(rows, pid, attrs, fields + [field]);
    assert (fields + [field])[..|fields|] == fields;
    forall i | 0 <= i < |rows|
      ensures HasId(cur[i], pid) == HasId(rows[i], pid)
    {
      if HasId(rows[i], pid) {
        OverwriteKeepsId(rows[i], attrs, fields, pid);
      }
    }
    if field in attrs {
      var set_ := SetWhere(cur, pid, field, attrs[field]);
      assert forall i :: 0 <= i < |rows| ==> set_[i] == next[i];
    } else {
      assert forall i :: 0 <= i < |rows| ==> cur[i] == next[i];
    }
  }

  /**
    The table after `write_gis_csv`: a new one-row table when there was no file; the rows carrying
    a non-empty id updated when there are any; otherwise the new row appended.
   */
  function Upserted(onDisk: bool, rows: seq<Row>, attrs: Row): seq<Row> {
    var pid := PoleIdOf(attrs);
    if !onDisk then [NewRow(attrs)]
    else if pid != "" && HasRow(rows, pid) then Updated(rows, pid, attrs, FieldNames)
    else rows + [NewRow(attrs)]
  }

  /** The CSV file at `output_csv`: whether it exists, and its rows when it does. */
  class GisTable {
    var onDisk: bool
    var rows: seq<Row>

    constructor (onDisk: bool, rows: seq<Row>)
      ensures this.onDisk == onDisk && this.rows == rows
    {
      this.onDisk := onDisk;
      this.rows := rows;
    }

    /** `write_gis_csv(attributes, output_csv)` */
    method WriteGisCsv(attributes: Row)
      modifies this
      ensures onDisk
      ensures rows == Upserted(old(onDisk), old(rows), attributes)
    {
      var pid := PoleIdOf(attributes);
      if onDisk {
        if pid != "" && HasRow(rows, pid) {
          UpdateRows(pid, attributes);
        } else {
          rows := rows + [NewRow(attributes)];
        }
      } else {
        onDisk := true;
        rows := [NewRow(attributes)];
      }
    }

    /** `for field in fieldnames: if field in attributes: df.loc[...] = attributes[field]` */
    method UpdateRows(pid: string, attributes: Row)
      requires "pole_id" in attributes ==> attributes["pole_id"] == pid
      modifies this
      ensures onDisk == old(onDisk)
      ensures rows == Updated(old(rows), pid, attributes, FieldNames)
    {
      ghost var before := rows;
      for f := 0 to |FieldNames|
        invariant onDisk == old(onDisk)
        invariant rows == Updated(before, pid, attributes, FieldNames[..f])
      {
        var field := FieldNames[f];
        UpdatedStep(before, pid, attributes, FieldNames[..f], field);
        assert FieldNames[..f + 1] == FieldNames[..f] + [field];
        if field in attributes {
          SetField(pid, field, attributes[field]);
        }
      }
      assert FieldNames[..|FieldNames|] == FieldNames;
    }

    /** One column assignment over the rows whose `pole_id` is `pid`. */
    method SetField(pid: string, field: string, value: string)
      modifies this
      ensures onDisk == old(onDisk)
      ensures rows == SetWhere(old(rows), pid, field, value)
    {
      ghost var before := rows;
      var i := 0;
      while i < |rows|
        invariant 0 <= i <= |rows| == |before|
        invariant onDisk == old(onDisk)
        invariant forall j :: 0 <= j < i ==> rows[j] == SetWhere(before, pid, field, value)[j]
        invariant forall j :: i <= j < |rows| ==> rows[j] == before[j]
      {
        if HasId(rows[i], pid) {
          rows := rows[i := rows[i][field := value]];
        }
        i := i + 1;
      }
    }
  }

  // ---------------------------------------------------------------------------
  // What an upsert does to the table

  /**
    A pole already in the table is updated in place: as many rows as before, the rows of other
    poles untouched, and each of the pole's rows holding every attribute given for a column of the
    table while keeping its other cells.
   */
  lemma UpdateInPlace(rows: seq<Row>, attrs: Row)
    requires PoleIdOf(attrs) != "" && HasRow(rows, PoleIdOf(attrs))
    ensures var pid := PoleIdOf(attrs);
      var r := Upserted(true, rows, attrs);
      && |r| == |rows|
      && (forall i :: 0 <= i < |rows| && !HasId(rows[i], pid) ==> r[i] == rows[i])
      && (forall i, k :: 0 <= i < |rows| && HasId(rows[i], pid) && k in FieldNames && k in attrs ==> k in r[i] && r[i][k] == attrs[k])
      && (forall i, k :: 0 <= i < |rows| && HasId(rows[i], pid) && k !in FieldNames ==> (k in r[i] <==> k in rows[i]))
      && (forall i, k :: 0 <= i < |rows| && HasId(rows[i], pid) && k in rows[i] && !(k in FieldNames && k in attrs) ==> k in r[i] && r[i][k] == rows[i][k])
  {
    var pid := PoleIdOf(attrs);
    forall i | 0 <= i < |rows|
      ensures var r := Overwrite(rows[i], attrs, FieldNames);
        && (forall k :: k in r <==> k in rows[i] || (k in FieldNames && k in attrs))
        && (forall k :: k in r ==> r[k] == if k in FieldNames && k in attrs then attrs[k] else rows[i][k])
    {
      OverwriteContents(rows[i], attrs, FieldNames);
    }
  }

  /** A pole not yet in the table, or written without an id, is appended as one new row. */
  lemma AppendsOtherwise(rows: seq<Row>, attrs: Row)
    requires PoleIdOf(attrs) == "" || !HasRow(rows, PoleIdOf(attrs))
    ensures Upserted(true, rows, attrs) == rows + [NewRow(attrs)]
    ensures |Upserted(true, rows, attrs)| == |rows| + 1
  {
  }

  /** Without a file the table is the one new row, every column filled from the attributes or empty. */
  lemma CreatesOneRow(rows: seq<Row>, attrs: Row)
    ensures var r := Upserted(false, rows, attrs);
      |r| == 1 && r[0].Keys == set k | k in FieldNames &&
      forall k :: k in FieldNames ==> r[0][k] == if k in attrs then attrs[k] else ""
  {
  }

  /** After an upsert with a non-empty id, the pole is in the table. */
  lemma UpsertedHasPole(onDisk: bool, rows: seq<Row>, attrs: Row)
    requires PoleIdOf(attrs) != ""
    ensures HasRow(Upserted(onDisk, rows, attrs), PoleIdOf(attrs))
  {
    var pid := PoleIdOf(attrs);
    var r := Upserted(onDisk, rows, attrs);
    if onDisk && HasRow(rows, pid) {
      var i :| 0 <= i < |rows| && HasId(rows[i], pid);
      OverwriteKeepsId(rows[i], attrs, FieldNames, pid);
      assert HasId(r[i], pid);
    } else {
      assert HasId(r[|r| - 1], pid);
    }
  }

  /** Writing the same attributes twice with a non-empty id leaves the table as one write does. */
  lemma UpsertIdempotent(onDisk: bool, rows: seq<Row>, attrs: Row)
    requires PoleIdOf(attrs) != ""
    ensures Upserted(true, Upserted(onDisk, rows, attrs), attrs) == Upserted(onDisk, rows, attrs)
  {
    var pid := PoleIdOf(attrs);
    var once := Upserted(onDisk, rows, attrs);
    UpsertedHasPole(onDisk, rows, attrs);
    var twice := Upserted(true, once, attrs);
    assert twice == Updated(once, pid, attrs, FieldNames);
    forall i | 0 <= i < |once|
      ensures twice[i] == once[i]
    {
      if HasId(once[i], pid) {
        if onDisk && HasRow(rows, pid) {
          if HasId(rows[i], pid) {
            OverwriteIdempotent(rows[i], attrs, FieldNames);
          }
        } else {
          OverwriteContents(once[i], attrs, FieldNames);
          assert i == |once| - 1 ==> once[i] == NewRow(attrs);
          if i == |once| - 1 {
            RowAlreadyWritten(attrs);
          }
        }
      }
    }
  }

  /** A freshly written row already holds every attribute it would be overwritten with. */
  lemma RowAlreadyWritten(attrs: Row)
    ensures Overwrite(NewRow(attrs), attrs, FieldNames) == NewRow(attrs)
  {
    OverwriteContents(NewRow(attrs), attrs, FieldNames);
  }

  /** Without an id nothing is matched: each write appends a row, so a repeated write duplicates it. */
  lemma EmptyIdAppendsAgain(rows: seq<Row>, attrs: Row)
    requires PoleIdOf(attrs) == ""
    ensures var once := Upserted(true, rows, attrs);
      Upserted(true, once, attrs) == rows + [NewRow(attrs), NewRow(attrs)]
  {
  }
}
