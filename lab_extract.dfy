/**
 * The upload handler's `complete` callback: from the rows of a parsed lab
 * table it decides between a wide layout (one patient per row, one marker
 * per column) and a vertical layout (one marker per row), collects the marker
 * values and the chronological age, picks up the patient's name and gender,
 * and builds the ten inputs of the PhenoAge formula with JavaScript `||`
 * defaulting.
 */
module LabExtract {
  import opened Options
  import opened JsArray
  import opened JsText
  import opened JsRecord
  import opened MarkerIds

  /** A cell after parsing with dynamic typing: a number, a string, or anything else. */
  datatype Scalar = Num(x: real) | Str(s: string) | Other

  /** A parsed row as `Object.entries` lists it: column header and cell, in enumeration order. */
  type Row = Record<Scalar>

  /** One write of the callback: `age = x` when `id` is "age", `markers[id] = x` otherwise. */
  datatype Assignment = Assignment(id: string, x: real)

  /** The callback's `markers` object and `age` variable. */
  datatype State = State(markers: Record<real>, age: real)

  const DefaultAge: real := 45.0
  const DefaultName: string := "Guest User"
  const DefaultGender: string := "Unknown"

  function Apply(st: State, w: Assignment): State {
    if w.id == "age" then st.(age := w.x) else st.(markers := Put(st.markers, w.id, w.x))
  }

  /** The state after the writes `ws`, in order, from no markers and the default age. */
  function ApplyAll(ws: seq<Assignment>): (st: State)
    ensures WellFormed(st.markers)
    ensures !HasKey(st.markers, "age")
  {
    if ws == [] then State([], DefaultAge)
    else Apply(ApplyAll(ws[..|ws| - 1]), ws[|ws| - 1])
  }

  lemma ApplyAllSnoc(ws: seq<Assignment>, w: Assignment)
    ensures ApplyAll(ws + [w]) == Apply(ApplyAll(ws), w)
  {
    assert (ws + [w])[..|ws|] == ws;
  }

  /** The position of the last write to `id`, if any. */
  function LastWrite(ws: seq<Assignment>, id: string): (r: Option<nat>)
    ensures r.Some? ==> r.value < |ws| && ws[r.value].id == id
    ensures r.Some? ==> forall j :: r.value < j < |ws| ==> ws[j].id != id
    ensures r.None? <==> forall j :: 0 <= j < |ws| ==> ws[j].id != id
  {
    if ws == [] then None
    else if ws[|ws| - 1].id == id then Some(|ws| - 1)
    else LastWrite(ws[..|ws| - 1], id)
  }

  /** The ids other than "age" that `ws` writes, in order, repeats included. */
  function MarkerIdsOf(ws: seq<Assignment>): (ids: seq<string>)
    ensures forall x :: x in ids <==> x != "age" && exists j :: 0 <= j < |ws| && ws[j].id == x
  {
    if ws == [] then []
    else
      var p := ws[..|ws| - 1];
      assert forall j :: 0 <= j < |p| ==> p[j] == ws[j];
      MarkerIdsOf(p) + (if ws[|ws| - 1].id == "age" then [] else [ws[|ws| - 1].id])
  }

  /** The listed ids follow the writes: those of a concatenation are those of each part, in order. */
  lemma {:induction false} MarkerIdsOfAppend(a: seq<Assignment>, b: seq<Assignment>)
    ensures MarkerIdsOf(a + b) == MarkerIdsOf(a) + MarkerIdsOf(b)
    decreases |b|
  {
    if b == [] {
      assert a + b == a;
    } else {
      var b' := b[..|b| - 1];
      assert (a + b)[..|a + b| - 1] == a + b';
      MarkerIdsOfAppend(a, b');
    }
  }

  /** One write lists its id, unless the id is "age". */
  lemma MarkerIdsOfOne(w: Assignment)
    ensures MarkerIdsOf([w]) == if w.id == "age" then [] else [w.id]
  {
    assert [w][..0] == [];
  }

  /** The value of the last write to `id` in `ws`, if any. */
  function LastValue(ws: seq<Assignment>, id: string): Option<real> {
    match LastWrite(ws, id)
    case None => None
    case Some(i) => Some(ws[i].x)
  }

  /** Every marker holds the value of its last write. */
  lemma {:induction false} LastWriteWins(ws: seq<Assignment>, id: string)
    requires id != "age"
    ensures Get(ApplyAll(ws).markers, id) == LastValue(ws, id)
  {
    if ws != [] {
      var p := ws[..|ws| - 1];
      var w := ws[|ws| - 1];
      LastWriteWins(p, id);
      if w.id != id {
        assert LastWrite(ws, id) == LastWrite(p, id);
        if LastWrite(p, id).Some? {
          assert ws[LastWrite(p, id).value] == p[LastWrite(p, id).value];
        }
      }
    }
  }

  /** `age` holds the value of the last "age" write, and 45 when there is none. */
  lemma {:induction false} LastAgeWins(ws: seq<Assignment>)
    ensures ApplyAll(ws).age == (match LastValue(ws, "age") case None => DefaultAge case Some(x) => x)
  {
    if ws != [] {
      var p := ws[..|ws| - 1];
      var w := ws[|ws| - 1];
      LastAgeWins(p);
      if w.id != "age" {
        assert LastWrite(ws, "age") == LastWrite(p, "age");
        if LastWrite(p, "age").Some? {
          assert ws[LastWrite(p, "age").value] == p[LastWrite(p, "age").value];
        }
      }
    }
  }

  /** `Object.keys(markers)` lists the marker ids in the order of their first write. */
  lemma {:induction false} MarkerKeysInFirstWriteOrder(ws: seq<Assignment>)
    ensures Keys(ApplyAll(ws).markers) == FirstOccurrences(MarkerIdsOf(ws))
  {
    if ws != [] {
      var p := ws[..|ws| - 1];
      var w := ws[|ws| - 1];
      MarkerKeysInFirstWriteOrder(p);
      var ids := MarkerIdsOf(ws);
      if w.id != "age" {
        assert ids == MarkerIdsOf(p) + [w.id];
        assert ids[..|ids| - 1] == MarkerIdsOf(p);
        assert HasKey(ApplyAll(p).markers, w.id) <==> w.id in FirstOccurrences(MarkerIdsOf(p));
      } else {
        assert ids == MarkerIdsOf(p);
      }
    }
  }

  // Wide layout.

  /** `keys.filter(k => mapKeyToId(k) !== null).length`. */
  function MappedCount(keys: seq<string>): (n: nat)
    ensures n <= |keys|
  {
    if keys == [] then 0
    else MappedCount(keys[..|keys| - 1]) + (if MapKeyToId(keys[|keys| - 1]).Some? then 1 else 0)
  }

  /** The count over a concatenation is the sum of the counts. */
  lemma {:induction false} MappedCountAppend(a: seq<string>, b: seq<string>)
    ensures MappedCount(a + b) == MappedCount(a) + MappedCount(b)
    decreases |b|
  {
    if b == [] {
      assert a + b == a;
    } else {
      var b' := b[..|b| - 1];
      assert (a + b)[..|a + b| - 1] == a + b';
      MappedCountAppend(a, b');
    }
  }

  /** A single header counts 1 exactly when it names a marker. */
  lemma MappedCountOne(k: string)
    ensures MappedCount([k]) == if MapKeyToId(k).Some? then 1 else 0
  {
    assert [k][..0] == [];
  }

  /** The table is wide when more than three headers of its first row name a marker. */
  predicate IsWide(first: Row) {
    MappedCount(Keys(first)) > 3
  }

  /** The write a wide-row cell causes: a marker header over a numeric cell. */
  function CellWrite(cell: (string, Scalar)): (r: seq<Assignment>)
    ensures |r| <= 1
    ensures r != [] <==> MapKeyToId(cell.0).Some? && cell.1.Num?
    ensures r != [] ==> r[0] == Assignment(MapKeyToId(cell.0).value, cell.1.x)
  {
    match MapKeyToId(cell.0)
    case None => []
    case Some(id) => if cell.1.Num? then [Assignment(id, cell.1.x)] else []
  }

  /** The writes of the wide layout: the cells of the first row, left to right. */
  function WideWrites(row: Row): seq<Assignment> {
    if row == [] then [] else WideWrites(row[..|row| - 1]) + CellWrite(row[|row| - 1])
  }

  /** `/name|patient|client/i.test(k)`; without the `u` flag `i` folds ASCII letters only. */
  predicate IsNameKey(k: string) {
    var l := Lower(k);
    Contains(l, "name") || Contains(l, "patient") || Contains(l, "client")
  }

  /** `/gender|sex/i.test(k)`. */
  predicate IsGenderKey(k: string) {
    var l := Lower(k);
    Contains(l, "gender") || Contains(l, "sex")
  }

  /**
   * The patient's name in the wide layout: the string under the first header
   * that mentions a name, with underscores turned into spaces.
   */
  function WideName(row: Row): (name: string)
    ensures '_' !in name
    ensures (forall j :: 0 <= j < |row| ==> !IsNameKey(row[j].0)) ==> name == DefaultName
    ensures forall i :: (0 <= i < |row| && IsNameKey(row[i].0) &&
      (forall j :: 0 <= j < i ==> !IsNameKey(row[j].0))) ==>
      name == (if row[i].1.Str? then UnderscoresToSpaces(row[i].1.s) else DefaultName)
  {
    FirstIsUniqueAll(Keys(row), IsNameKey);
    match FindFirst(Keys(row), IsNameKey)
    case None => DefaultName
    case Some(i) =>
      if row[i].1.Str? then UnderscoresToSpaces(row[i].1.s) else DefaultName
  }

  /** The gender in the wide layout: the string under the first header that mentions it. */
  function WideGender(row: Row): (gender: string)
    ensures gender != DefaultGender ==>
      exists i :: 0 <= i < |row| && IsGenderKey(row[i].0) && row[i].1 == Str(gender)
    ensures (forall j :: 0 <= j < |row| ==> !IsGenderKey(row[j].0)) ==> gender == DefaultGender
    ensures forall i :: (0 <= i < |row| && IsGenderKey(row[i].0) &&
      (forall j :: 0 <= j < i ==> !IsGenderKey(row[j].0))) ==>
      gender == (if row[i].1.Str? then row[i].1.s else DefaultGender)
  {
    FirstIsUniqueAll(Keys(row), IsGenderKey);
    match FindFirst(Keys(row), IsGenderKey)
    case None => DefaultGender
    case Some(i) => if row[i].1.Str? then row[i].1.s else DefaultGender
  }

  // Vertical layout.

  /** `Object.values(row)`. */
  function Values(row: Row): (vs: seq<Scalar>)
    ensures |vs| == |row|
    ensures forall i :: 0 <= i < |row| ==> vs[i] == row[i].1
  {
    seq(|row|, i requires 0 <= i < |row| => row[i].1)
  }

  /** `values.find(v => typeof v === 'number')`. */
  function FirstNumber(row: Row): (r: Option<real>)
    ensures r.None? <==> forall i :: 0 <= i < |row| ==> !row[i].1.Num?
    ensures r.Some? ==> exists i :: (0 <= i < |row| && row[i].1 == Num(r.value) &&
      forall j :: 0 <= j < i ==> !row[j].1.Num?)
  {
    match FindFirst(Values(row), (v: Scalar) => v.Num?)
    case None => None
    case Some(i) => Some(row[i].1.x)
  }

  /** `values.filter(v => typeof v === 'string')`. */
  function StringValues(row: Row): (ss: seq<string>)
    ensures |ss| <= |row|
    ensures forall s :: s in ss <==> exists i :: 0 <= i < |row| && row[i].1 == Str(s)
  {
    if row == [] then []
    else
      var p := row[..|row| - 1];
      assert forall i :: 0 <= i < |p| ==> p[i] == row[i];
      StringValues(p) + (if row[|row| - 1].1.Str? then [row[|row| - 1].1.s] else [])
  }

  /** `filter` keeps order and repeats: the strings of a concatenation are those of each part, in order. */
  lemma {:induction false} StringValuesAppend(a: Row, b: Row)
    ensures StringValues(a + b) == StringValues(a) + StringValues(b)
    decreases |b|
  {
    if b == [] {
      assert a + b == a;
    } else {
      var b' := b[..|b| - 1];
      assert (a + b)[..|a + b| - 1] == a + b';
      StringValuesAppend(a, b');
    }
  }

  /** A single cell contributes its string, or nothing. */
  lemma StringValuesOne(cell: (string, Scalar))
    ensures StringValues([cell]) == if cell.1.Str? then [cell.1.s] else []
  {
    assert [cell][..0] == [];
  }

  /**
   * The write a vertical row causes: its first number, under the id of the
   * first of its strings that names a marker.
   */
  function RowWrite(row: Row): (r: seq<Assignment>)
    ensures |r| <= 1
    ensures r != [] <==> (FirstNumber(row).Some? &&
      exists s :: s in StringValues(row) && MapKeyToId(s).Some?)
    ensures r != [] ==> r[0].x == FirstNumber(row).value
  {
    match FirstNumber(row)
    case None => []
    case Some(x) =>
      var ss := StringValues(row);
      match FindFirst(ss, (s: string) => MapKeyToId(s).Some?)
      case None => []
      case Some(j) => [Assignment(MapKeyToId(ss[j]).value, x)]
  }

  /** The writes of the vertical layout: one or none per row, top to bottom. */
  function VerticalWrites(rows: seq<Row>): seq<Assignment> {
    if rows == [] then [] else VerticalWrites(rows[..|rows| - 1]) + RowWrite(rows[|rows| - 1])
  }

  /** The id a vertical row writes is the one of its first string that names a marker. */
  lemma RowWriteUsesFirstMarkerString(row: Row, j: nat)
    requires FirstNumber(row).Some?
    requires j < |StringValues(row)| && MapKeyToId(StringValues(row)[j]).Some?
    requires forall t :: 0 <= t < j ==> MapKeyToId(StringValues(row)[t]).None?
    ensures RowWrite(row) == [Assignment(MapKeyToId(StringValues(row)[j]).value, FirstNumber(row).value)]
  {
    FirstIsUnique(StringValues(row), (s: string) => MapKeyToId(s).Some?, j);
  }

  // The PhenoAge inputs.

  datatype PhenoAgeInputs = PhenoAgeInputs(
    albumin: real, creatinine: real, glucose: real, crp: real, lymphocytePercent: real,
    mcv: real, rdw: real, alp: real, wbc: real, age: real)

  /** `markers[id] || d`: `||` replaces a missing value and a zero alike. */
  function OrDefault(markers: Record<real>, id: string, d: real): (r: real)
    ensures r == d || Get(markers, id) == Some(r)
    ensures Get(markers, id).Some? && Get(markers, id).value != 0.0 ==> r == Get(markers, id).value
    ensures d != 0.0 ==> r != 0.0
  {
    match Get(markers, id)
    case None => d
    case Some(v) => if v != 0.0 then v else d
  }

  /** `r` is the marker `id` when that is present and non-zero, and `d` otherwise. */
  predicate MarkerOr(markers: Record<real>, id: string, d: real, r: real) {
    (Get(markers, id).Some? && Get(markers, id).value != 0.0 ==> r == Get(markers, id).value) &&
    (Get(markers, id).None? || Get(markers, id).value == 0.0 ==> r == d)
  }

  /** The PhenoAge inputs: each field its own marker, or its literal default. */
  function InputsOf(markers: Record<real>, age: real): (p: PhenoAgeInputs)
    ensures p.age == age
    ensures MarkerOr(markers, "albumin", 4.5, p.albumin)
    ensures MarkerOr(markers, "creatinine", 1.0, p.creatinine)
    ensures MarkerOr(markers, "glucose", 90.0, p.glucose)
    ensures MarkerOr(markers, "crp", 0.5, p.crp)
    ensures MarkerOr(markers, "lymphocytes_percent", 30.0, p.lymphocytePercent)
    ensures MarkerOr(markers, "mcv", 85.0, p.mcv)
    ensures MarkerOr(markers, "rdw", 13.0, p.rdw)
    ensures MarkerOr(markers, "alp", 70.0, p.alp)
    ensures MarkerOr(markers, "wbc", 6.0, p.wbc)
    ensures p.albumin != 0.0 && p.creatinine != 0.0 && p.glucose != 0.0 && p.crp != 0.0
    ensures p.lymphocytePercent != 0.0 && p.mcv != 0.0 && p.rdw != 0.0 && p.alp != 0.0 && p.wbc != 0.0
  {
    PhenoAgeInputs(
      OrDefault(markers, "albumin", 4.5),
      OrDefault(markers, "creatinine", 1.0),
      OrDefault(markers, "glucose", 90.0),
      OrDefault(markers, "crp", 0.5),
      OrDefault(markers, "lymphocytes_percent", 30.0),
      OrDefault(markers, "mcv", 85.0),
      OrDefault(markers, "rdw", 13.0),
      OrDefault(markers, "alp", 70.0),
      OrDefault(markers, "wbc", 6.0),
      age)
  }

  /** Without any marker every input takes its literal default. */
  lemma NoMarkersGiveDefaults(age: real)
    ensures InputsOf([], age) == PhenoAgeInputs(4.5, 1.0, 90.0, 0.5, 30.0, 85.0, 13.0, 70.0, 6.0, age)
  {
  }

  /** A marker read as 0 counts as missing. */
  lemma ZeroMarkerTakesDefault(markers: Record<real>, id: string, d: real)
    requires Get(markers, id) == Some(0.0)
    ensures OrDefault(markers, id, d) == d
  {
  }

  // The whole callback.

  /** What the callback hands on: the markers, the age, the name, the gender and the inputs. */
  datatype Extraction = Extraction(
    markers: Record<real>, age: real, patientName: string, gender: string, inputs: PhenoAgeInputs)

  function Finish(st: State, name: string, gender: string): Extraction {
    Extraction(st.markers, st.age, name, gender, InputsOf(st.markers, st.age))
  }

  /** The callback's outcome on `rows`; `None` when it returns early on an empty table. */
  function ExtractSpec(rows: seq<Row>): (r: Option<Extraction>)
    ensures r.None? <==> rows == []
    ensures r.Some? ==> WellFormed(r.value.markers) && !HasKey(r.value.markers, "age")
    ensures r.Some? ==> '_' !in r.value.patientName
    ensures r.Some? ==> r.value.inputs.age == r.value.age
  {
    if rows == [] then None
    else if IsWide(rows[0]) then
      Some(Finish(ApplyAll(WideWrites(rows[0])), WideName(rows[0]), WideGender(rows[0])))
    else
      Some(Finish(ApplyAll(VerticalWrites(rows)), DefaultName, DefaultGender))
  }

  /** A first row with at most three columns can never make the table wide. */
  lemma NarrowFirstRowIsVertical(rows: seq<Row>)
    requires rows != [] && |rows[0]| <= 3
    ensures ExtractSpec(rows) == Some(Finish(ApplyAll(VerticalWrites(rows)), DefaultName, DefaultGender))
  {
    assert MappedCount(Keys(rows[0])) <= 3;
  }

  /** In the wide layout only the first row is read. */
  lemma WideReadsOnlyFirstRow(rows: seq<Row>, rows': seq<Row>)
    requires rows != [] && rows' != [] && rows[0] == rows'[0] && IsWide(rows[0])
    ensures ExtractSpec(rows) == ExtractSpec(rows')
  {
  }

  /** `keys.forEach(...)` of the wide layout, over the first row. */
  method CollectWide(row: Row) returns (markers: Record<real>, age: real)
    ensures State(markers, age) == ApplyAll(WideWrites(row))
  {
    markers := [];
    age := DefaultAge;
    for i := 0 to |row|
      invariant State(markers, age) == ApplyAll(WideWrites(row[..i]))
    {
      assert row[..i + 1][..i] == row[..i];
      var done := WideWrites(row[..i]);
      var w := CellWrite(row[i]);
      assert WideWrites(row[..i + 1]) == done + w;
      var id := MapKeyToId(row[i].0);
      var val := row[i].1;
      if id.Some? && val.Num? {
        assert w == [Assignment(id.value, val.x)];
        ApplyAllSnoc(done, Assignment(id.value, val.x));
        if id.value == "age" {
          age := val.x;
        } else {
          markers := Put(markers, id.value, val.x);
        }
      } else {
        assert done + w == done;
      }
    }
    assert row[..|row|] == row;
  }

  /** The body of `data.forEach(...)` in the vertical layout, for one row. */
  method CollectRow(markers: Record<real>, age: real, row: Row) returns (markers': Record<real>, age': real)
    ensures RowWrite(row) == [] ==> markers' == markers && age' == age
    ensures RowWrite(row) != [] ==> State(markers', age') == Apply(State(markers, age), RowWrite(row)[0])
  {
    markers', age' := markers, age;
    var numberVal := FirstNumber(row);
    var strs := StringValues(row);
    if numberVal.Some? && |strs| > 0 {
      var j := 0;
      while j < |strs|
        invariant 0 <= j <= |strs|
        invariant forall t :: 0 <= t < j ==> MapKeyToId(strs[t]).None?
      {
        var id := MapKeyToId(strs[j]);
        if id.Some? {
          RowWriteUsesFirstMarkerString(row, j);
          if id.value == "age" {
            age' := numberVal.value;
          } else {
            markers' := Put(markers, id.value, numberVal.value);
          }
          return;
        }
        j := j + 1;
      }
    }
  }

  /** `data.forEach(...)` of the vertical layout, over every row. */
  method CollectVertical(rows: seq<Row>) returns (markers: Record<real>, age: real)
    ensures State(markers, age) == ApplyAll(VerticalWrites(rows))
  {
    markers := [];
    age := DefaultAge;
    for i := 0 to |rows|
      invariant State(markers, age) == ApplyAll(VerticalWrites(rows[..i]))
    {
      assert rows[..i + 1][..i] == rows[..i];
      var done := VerticalWrites(rows[..i]);
      var w := RowWrite(rows[i]);
      assert VerticalWrites(rows[..i + 1]) == done + w;
      if w != [] {
        assert w == [w[0]];
        ApplyAllSnoc(done, w[0]);
      } else {
        assert done + w == done;
      }
      markers, age := CollectRow(markers, age, rows[i]);
    }
    assert rows[..|rows|] == rows;
  }

  /**
   * The callback as the program runs it: the early return on an empty table,
   * the layout test on the first row's headers, the collecting pass, and the
   * defaulting of the inputs.
   */
  method Extract(rows: seq<Row>) returns (r: Option<Extraction>)
    ensures r == ExtractSpec(rows)
  {
    var markers: Record<real>;
    var age: real;
    var patientName := DefaultName;
    var gender := DefaultGender;
    if |rows| == 0 {
      return None;
    }
    var firstRow := rows[0];
    var keys := Keys(firstRow);
    if MappedCount(keys) > 3 {
      patientName := WideName(firstRow);
      gender := WideGender(firstRow);
      markers, age := CollectWide(firstRow);
    } else {
      markers, age := CollectVertical(rows);
    }
    var inputs := InputsOf(markers, age);
    r := Some(Extraction(markers, age, patientName, gender, inputs));
  }
}
