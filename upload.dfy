/**
  The checks and cleaning the upload handler applies to an uploaded frame
  before it may replace the radar's data: every required column must be
  present, and the `Current_Phase` column is coerced to numbers and clipped to
  the radar's range [0, 100].
*/
module Upload {
  import opened Wrappers
  import opened Frame

  /** The columns an uploaded frame must have, in the order they are checked. */
  const RequiredColumns: seq<string> := ["Asset", "Company", "Current_Phase", "MOA", "Category"]

  /** The column holding the development phase, the radius of each asset on the radar. */
  const PhaseColumn: string := "Current_Phase"

  /**
    `[col for col in required_cols if col not in uploaded_data.columns]`: the
    required columns absent from `present`, in required order.
  */
  function MissingColumns(required: seq<string>, present: set<string>): (missing: seq<string>)
    ensures |missing| <= |required|
    ensures forall c :: c in missing <==> c in required && c !in present
    ensures missing == [] <==> forall i :: 0 <= i < |required| ==> required[i] in present
  {
    if required == [] then []
    else (if required[0] in present then [] else [required[0]]) + MissingColumns(required[1..], present)
  }

  /** The missing columns are reported in the order in which they are required. */
  lemma {:induction false} MissingColumnsInRequiredOrder(required: seq<string>, present: set<string>)
    ensures IsSubsequence(MissingColumns(required, present), required)
  {
    if required != [] {
      MissingColumnsInRequiredOrder(required[1..], present);
      var rest := MissingColumns(required[1..], present);
      if required[0] !in present {
        assert MissingColumns(required, present) == [required[0]] + rest;
        assert ([required[0]] + rest)[1..] == rest;
      } else {
        assert MissingColumns(required, present) == rest;
        if rest != [] {
          assert rest[0] in rest;
        }
      }
    }
  }

  /**
    `pd.to_numeric(..., errors='coerce')` on one cell: a number stays, anything
    it cannot read as a number becomes NaN (`None`).
  */
  function ToNumeric(c: Cell): (n: Option<real>)
    ensures n.Some? <==> c.Number?
    ensures c.Number? ==> n == Some(c.value)
  {
    match c
    case Number(v) => Some(v)
    case _ => None
  }

  /** `.clip(0, 100)` on one value. */
  function Clip(x: real): (y: real)
    ensures 0.0 <= y <= 100.0
    ensures 0.0 <= x <= 100.0 ==> y == x
  {
    if x < 0.0 then 0.0 else if x > 100.0 then 100.0 else x
  }

  /** `to_numeric(errors='coerce')`, then `.fillna(0)`, then `.clip(0, 100)`, on one cell. */
  function CleanPhase(c: Cell): (v: real)
    ensures 0.0 <= v <= 100.0
    ensures !c.Number? ==> v == 0.0
    ensures c.Number? && 0.0 <= c.value <= 100.0 ==> v == c.value
  {
    match ToNumeric(c)
    case None => Clip(0.0)
    case Some(x) => Clip(x)
  }

  /** Clipping picks the point of [0, 100] closest to the value. */
  lemma ClipIsNearest(x: real, y: real)
    requires 0.0 <= y <= 100.0
    ensures Abs(Clip(x) - x) <= Abs(y - x)
  {
  }

  function Abs(x: real): real {
    if x < 0.0 then -x else x
  }

  /** Cleaning a phase that is already clean changes nothing. */
  lemma CleanPhaseIdempotent(c: Cell)
    ensures CleanPhase(Number(CleanPhase(c))) == CleanPhase(c)
  {
  }

  /** Cleaning keeps the order of numeric phases. */
  lemma CleanPhaseMonotone(x: real, y: real)
    requires x <= y
    ensures CleanPhase(Number(x)) <= CleanPhase(Number(y))
  {
  }

  /** The `Current_Phase` column after cleaning: one number of [0, 100] per row. */
  function CleanPhaseColumn(column: seq<Cell>): (cleaned: seq<Cell>)
    ensures |cleaned| == |column|
    ensures forall i :: 0 <= i < |column| ==> cleaned[i].Number? && 0.0 <= cleaned[i].value <= 100.0
    ensures forall i :: 0 <= i < |column| && !column[i].Number? ==> cleaned[i] == Number(0.0)
    ensures forall i :: 0 <= i < |column| && column[i].Number? && 0.0 <= column[i].value <= 100.0 ==>
      cleaned[i] == column[i]
  {
    seq(|column|, i requires 0 <= i < |column| => Number(CleanPhase(column[i])))
  }

  /**
    The upload handler's validation and cleaning: a frame missing a required column is
    refused with the list of missing columns; otherwise its `Current_Phase`
    column is cleaned and every other column is kept as it is.
  */
  function ValidateUpload(data: Frame): (r: Result<Frame, seq<string>>)
    requires data.Valid()
    ensures r.Failure? <==> exists i :: 0 <= i < |RequiredColumns| && RequiredColumns[i] !in data.columns
    ensures r.Failure? ==> r.error == MissingColumns(RequiredColumns, data.columns.Keys) && r.error != []
    ensures r.Success? ==>
      && r.value.Valid()
      && r.value.length == data.length
      && r.value.columns.Keys == data.columns.Keys
      && (forall c :: c in data.columns && c != PhaseColumn ==> r.value.columns[c] == data.columns[c])
      && (forall i :: 0 <= i < data.length ==>
            r.value.columns[PhaseColumn][i].Number?
            && r.value.columns[PhaseColumn][i].value == CleanPhase(data.columns[PhaseColumn][i]))
  {
    var missing := MissingColumns(RequiredColumns, data.columns.Keys);
    if missing != [] then Failure(missing)
    else
      assert RequiredColumns[2] == PhaseColumn;
      Success(Frame(data.columns[PhaseColumn := CleanPhaseColumn(data.columns[PhaseColumn])], data.length))
  }
}
