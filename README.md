# Bulls-eye radar: segment layout, upload cleaning and MOA legend

This project models the computational core of the bulls-eye radar app
(`bullseye_radar_app.py`), a Streamlit page that plots drug assets on a
circular radar. The radius of an asset is its development phase. Its angle
comes from the segment layout.

`calculate_segment_positions` is the central routine:

- It takes the distinct values of a grouping column (by default `Category`)
  in the order they first appear.
- It keeps at most `max_segments` of them and gives each kept key an equal
  wedge of the full turn.
- It spreads the rows of each key over that key's wedge.
- It emits one angle per row, in row order, for every row whose key kept a
  wedge.

The model also covers:

- the checks and cleaning the upload handler applies before accepting a CSV:
  the required columns, and the coercion and clipping of `Current_Phase`;
- the colours handed to MOAs that are new in an upload;
- the MOA legend;
- how the chart renderer pairs rows with angles.

Files:

- `wrappers.dfy`: the `Option` and `Result` datatypes.
- `frame.dfy`: the slice of a pandas frame the app uses. Cells are
  `Number`, `Text` or `Blank` (NaN), stored in named columns of equal length.
  The module also models `unique()` (first-appearance order), the size of an
  equality filter (`Count`) and the position of a row among the rows with
  the same key (`Rank`).
- `segment_layout.dfy`: `calculate_segment_positions`, lines 55-100, with the
  geometry of wedges and positions.
  - Angles are real numbers and the full turn 2π is the parameter `tau`.
  - The routine is an imperative method. Its two loops are the methods
    `LayOutSegments` and `AssignAngles`, each proved against the
    specification functions `SegmentMap` and `PlacedAngles`.
  - `GroupedLayout` is the specification of the whole result.
- `upload.dfy`: the required-column check (lines 522-523) and phase cleaning
  (lines 529-530), as pure functions.
- `moa_colors.dfy`: the MOA colour dict as a class whose method assigns
  colours to new MOAs (lines 533-536), and `create_moa_legend` (lines
  293-301).
- `renderer.dfy`: the row/angle pairing of the renderer (lines 198-200), as
  written and corrected (see Findings).

## Model

| member | source | states |
|---|---|---|
| Frame.UniqueInFirstAppearanceOrder | bullseye_radar_app.py:60 | `unique()` lists the distinct keys in the order of their first rows |
| Frame.Unique | bullseye_radar_app.py:60 | the distinct keys have no repeats, each is a key of the column, and every key of the column is among them |
| Frame.Count | bullseye_radar_app.py:71-75 | the size of `data[data[col] == x]` is at most the row count, and positive exactly when x occurs |
| Frame.Rank | bullseye_radar_app.py:94-96 | a row's position among the rows of its key is less than the number of those rows |
| Frame.MemberRows | bullseye_radar_app.py:94-95 | the index of `data[data[col] == x]`: exactly Count rows, each holding x, in increasing row order |
| Frame.RankLocatesRow | bullseye_radar_app.py:94-96 | `list(segment_data.index).index(row.name)` finds the row itself: the row at position Rank(r) of its key's rows is r |
| Frame.RankInjective | bullseye_radar_app.py:94-96 | two rows of the same key have distinct positions, in row order |
| Frame.RankIsIndexOf | bullseye_radar_app.py:95-96 | `list(segment_data.index).index(row.name)` is the row's rank: the row is among its key's rows, and the index lookup returns Rank(r) |
| Frame.CountIsMultiplicity | bullseye_radar_app.py:71-75 | the number of rows `data[col] == x` selects equals the multiplicity of x in the column |
| Frame.IndexOf | bullseye_radar_app.py:96 | `list.index` returns the first place holding the element (no earlier place holds it), and the only one when the list has no repeats |
| SegmentLayout.SegmentCount | bullseye_radar_app.py:60-61 | `num_segments` is at most the cap and the number of distinct keys, equals one of them, and is 0 exactly for an empty column or a cap of 0 |
| SegmentLayout.SegmentAngle | bullseye_radar_app.py:64 | `segment_angle`: the width of one of k equal wedges, tau / k (definition; TurnIsSpans states what it means) |
| SegmentLayout.TurnIsSpans | bullseye_radar_app.py:64 | for a positive turn the wedge width is positive and k wedges make up exactly the full turn |
| SegmentLayout.BaseAngle | bullseye_radar_app.py:72 | `base_angle = i * segment_angle` (definition; WedgesTileTurn states where wedges start) |
| SegmentLayout.EndAngle | bullseye_radar_app.py:87 | `end_angle = base_angle + segment_angle` (definition; WedgesTileTurn states that each wedge ends where the next starts) |
| SegmentLayout.Positions | bullseye_radar_app.py:75-83 | the position list of a segment: exactly one position per row of the segment; the lemmas below state where they lie |
| SegmentLayout.MemberAngle | bullseye_radar_app.py:82-83 | the j-th evenly spaced position of a segment with several rows (definition; MemberEnds and PositionsSpread state its values) |
| SegmentLayout.MemberEnds | bullseye_radar_app.py:79-83 | the first spread position is base + padding and the last is base + padding + available angle |
| SegmentLayout.EvenAngles | bullseye_radar_app.py:57-58 | the fallback's angles: one per row, the first at 0; EvenAnglesSpacing states the spacing |
| SegmentLayout.SegmentMap | bullseye_radar_app.py:70-89 | `segment_positions` after the first m rounds of the first loop (definition; SegmentMapHas, SegmentMapOnly and SegmentMapEntries state its contents) |
| SegmentLayout.PlacedAngles | bullseye_radar_app.py:92-98 | the angle list after the first n rows: at most one angle per row whose key owns a segment, equality when the bound check never fails (PlacedAnglesLength) |
| SegmentLayout.PlacedCount | bullseye_radar_app.py:92-98 | how many of the first n rows have a key that owns a segment, at most n |
| SegmentLayout.GroupedLayout | bullseye_radar_app.py:60-100 | the whole result when the grouping column is present: between 1 and `max_segments` kept keys; the Grouped lemmas state the rest |
| SegmentLayout.SingleMemberAtMidpoint | bullseye_radar_app.py:76-77 | a one-row segment places its row at the midpoint of the wedge |
| SegmentLayout.PositionsSpread | bullseye_radar_app.py:78-83 | with n > 1 rows the first sits at base + 0.1·span, the last at end − 0.1·span, and consecutive gaps all equal 0.8·span/(n−1) |
| SegmentLayout.PositionsInsideWedge | bullseye_radar_app.py:76-83 | every position lies strictly inside (base, base + span), and positions strictly increase |
| SegmentLayout.WedgesTileTurn | bullseye_radar_app.py:64-72 | wedge 0 starts at 0, each wedge ends where the next starts, the last ends at tau, and all lie in [0, tau] |
| SegmentLayout.WedgeOf | bullseye_radar_app.py:64-72 | every angle of [0, tau) lies in one of the k wedges |
| SegmentLayout.WedgesDisjoint | bullseye_radar_app.py:72 | no angle lies in two different wedges |
| SegmentLayout.InsideWedgeIsWedgeOf | bullseye_radar_app.py:72 | an angle strictly inside wedge i lies in [0, tau) and in wedge i only |
| SegmentLayout.EvenAnglesSpacing | bullseye_radar_app.py:57-58 | the fallback's `linspace(0, 2π, n, endpoint=False)` starts at 0, stays below tau, and steps by tau/n |
| SegmentLayout.SegmentFor | bullseye_radar_app.py:71-88 | the entry of the i-th kept key has one position per row of that key |
| SegmentLayout.SegmentForInWedge | bullseye_radar_app.py:72-88 | entry i has base i·span and end base + span, lies in [0, tau], and its positions strictly increase strictly inside it |
| SegmentLayout.SegmentMapHas | bullseye_radar_app.py:70-89 | after m rounds the i-th kept key (i < m) maps to its own entry |
| SegmentLayout.SegmentMapOnly | bullseye_radar_app.py:70-89 | after m rounds only the first m kept keys have entries |
| SegmentLayout.SegmentMapEntries | bullseye_radar_app.py:70-89 | `segment_positions` holds exactly the first m kept keys, each with its own entry and one position per row |
| SegmentLayout.PlacedAnglesStep | bullseye_radar_app.py:92-98 | one row appends its segment's position when its key owns a segment, and nothing otherwise |
| SegmentLayout.PlacedAnglesLength | bullseye_radar_app.py:92-98 | when each segment has one position per row, the angle list has one entry per row whose key owns a segment |
| SegmentLayout.PlacedAngleOfRow | bullseye_radar_app.py:92-98 | row r's angle is position Rank(r) of its segment, at index PlacedCount(r), after the angles of all earlier placed rows |
| SegmentLayout.PlacedAnglesFollowRows | bullseye_radar_app.py:92-98 | the angle list follows row order: every placed row has its own entry, in order |
| SegmentLayout.PlacedCountMonotone | bullseye_radar_app.py:92-98 | a later row's index in the angle list is never smaller, and strictly larger past a placed row |
| SegmentLayout.PlacedCountAll | bullseye_radar_app.py:92-98 | every row gets an angle exactly when every row's key owns a segment |
| SegmentLayout.GroupedSegment | bullseye_radar_app.py:70-89 | the i-th distinct key owns wedge i, with one position per row of that key, increasing strictly inside the wedge |
| SegmentLayout.GroupedLayoutSegments | bullseye_radar_app.py:60-89 | the kept keys are the first min(#distinct, cap) ≥ 1 keys in first-appearance order, exactly they own entries, and key i owns wedge i |
| SegmentLayout.GroupedPositionsFit | bullseye_radar_app.py:75-97 | every segment has exactly one position per row of its key, so the bound check of line 97 always passes |
| SegmentLayout.GroupedRow | bullseye_radar_app.py:92-98 | a row whose key kept a segment passes the bound check and gets its segment's position at its place among the segment's rows, strictly inside (0, tau) and in its own wedge |
| SegmentLayout.GroupedAnglesLength | bullseye_radar_app.py:92-98 | the angle list has one angle per row whose key kept a segment |
| SegmentLayout.AllRowsPlacedIff | bullseye_radar_app.py:61-98 | every row gets an angle if and only if the number of distinct keys does not exceed the cap |
| SegmentLayout.RowAnglesIncreaseWithinSegment | bullseye_radar_app.py:92-98 | two rows of the same segment get angles in row order, strictly increasing |
| SegmentLayout.CalculateSegmentPositions | bullseye_radar_app.py:55-100 | without the column: evenly spaced angles and no segments; with it: division by zero exactly for an empty frame or a cap of 0, otherwise the grouped layout |
| SegmentLayout.LayOutSegments | bullseye_radar_app.py:70-89 | the first loop produces the kept keys in order and the `segment_positions` of the specification |
| SegmentLayout.AssignAngles | bullseye_radar_app.py:92-98 | the second loop produces the angle list of the specification |
| Upload.MissingColumns | bullseye_radar_app.py:522-523 | a column is reported exactly when it is required and absent; none is reported iff all required columns are present |
| Upload.MissingColumnsInRequiredOrder | bullseye_radar_app.py:522-523 | missing columns are reported in the order they are required |
| Upload.ToNumeric | bullseye_radar_app.py:529 | `to_numeric(errors='coerce')` keeps every number with its value and turns everything else into NaN |
| Upload.Clip | bullseye_radar_app.py:530 | `clip(0, 100)` lands in [0, 100] and leaves values of [0, 100] unchanged |
| Upload.ClipIsNearest | bullseye_radar_app.py:530 | clipping picks the point of [0, 100] nearest the value |
| Upload.CleanPhase | bullseye_radar_app.py:529-530 | a cleaned phase lies in [0, 100], a non-numeric one becomes 0, and an in-range number is unchanged |
| Upload.CleanPhaseIdempotent | bullseye_radar_app.py:529-530 | cleaning a cleaned phase changes nothing |
| Upload.CleanPhaseMonotone | bullseye_radar_app.py:529-530 | cleaning keeps the order of numeric phases |
| Upload.CleanPhaseColumn | bullseye_radar_app.py:529-530 | the cleaned column keeps its length, holds only numbers of [0, 100], turns non-numbers into 0 and keeps in-range numbers |
| Upload.ValidateUpload | bullseye_radar_app.py:522-530 | an upload is refused exactly when a required column is missing, with the missing list; otherwise only `Current_Phase` changes, to its cleaned values |
| MoaColors.MoaColorMap.constructor | bullseye_radar_app.py:27-41 | `st.session_state.moa_colors`: a colour map starts from a given insertion order and colours, one colour per listed MOA and no other |
| MoaColors.MoaColorMap.AssignNewMoaColors | bullseye_radar_app.py:533-536 | existing colours are unchanged; the new MOAs are added at the end of the map in the walk's order, the i-th getting palette colour i mod 8; the map then covers the old MOAs and the upload's MOAs |
| MoaColors.MoaCount | bullseye_radar_app.py:297 | an MOA's asset count is positive exactly when the MOA column exists and holds it |
| MoaColors.Legend | bullseye_radar_app.py:293-301 | each legend row has a count > 0 equal to the MOA's asset count and the MOA's colour; the legend is empty without an MOA column |
| MoaColors.LegendAppend | bullseye_radar_app.py:296-299 | one more MOA of the map appends its row, if it has assets, after the others |
| MoaColors.LegendListsPresentMoas | bullseye_radar_app.py:296-299 | the legend has a row for exactly the MOAs of the map that at least one asset has |
| MoaColors.LegendFollowsMapOrder | bullseye_radar_app.py:296-301 | legend rows follow the colour map's insertion order |
| MoaColors.CreateMoaLegend | bullseye_radar_app.py:293-301 | the loop over the colour map produces the legend of the specification |
| Renderer.DrawnAngleAsWritten | bullseye_radar_app.py:198-200 | as written, row idx is drawn at angles[idx] exactly when idx < len(angles) |
| Renderer.DrawnAngle | bullseye_radar_app.py:198-200 | the corrected lookup draws a row only if its key owns a segment, at an angle of the list |
| Renderer.DrawnAngleIsOwnPosition | bullseye_radar_app.py:198-200 | with the corrected lookup each row of a kept segment is drawn at its own position, and rows of dropped segments are not drawn |
| Renderer.AsWrittenMisplacesRows | bullseye_radar_app.py:198-200 | keys A, B, C, A with cap 2: as written, row 2 (dropped key C) is drawn at row 3's angle and row 3 is not drawn |

## Left out

- The Streamlit page, its widgets, session state and reruns (lines 10-53 and 303-564) are left out. They are UI plumbing. The MOA colour map's twelve initial entries (lines 27-41) are not written out; its constructor takes any initial map.
- The Plotly figure construction (lines 102-291) is left out. It consists of library calls and floating-point trigonometry. Only the row/angle pairing at lines 198-200 is modelled.
- CSV reading, CSV download and the error messages shown to the user are left out. They are I/O.
- Floating point is not modelled. Angles are exact reals, and 2π is the parameter `tau`.
- SegmentLayout.CalculateSegmentPositions: the fallback at line 58 returns a bare array, not the `(angles, segment_positions)` pair that line 100 returns and line 106 unpacks. The model returns the evenly spaced angles with an empty segment map. That is the value the caller evidently expects.
- SegmentLayout.CalculateSegmentPositions: `max_segments` is a natural number. A negative cap, which the app's slider (2 to 8) never passes, is not modelled.
- SegmentLayout.CalculateSegmentPositions: the `ZeroDivisionError` of line 64 is the result `Failure(ZeroDivision)`. It occurs for an empty frame, or a cap of 0, when the column is present.
- Rows are matched to their segment by position among the rows with the same key (`Rank`). This equals line 96's lookup of `row.name` when the frame's index labels are unique, as they are for a frame read from CSV. Duplicate index labels are not modelled.
- Missing grouping keys (NaN) are treated as one key equal to itself, so their rows get positions like any other key. In the source a NaN key among the first `num_segments` still takes a wedge, but `data[col] == NaN` selects no rows (line 75). Its position list is then empty (line 83), and the entry is still stored (line 85). When a NaN row's key is found in that dict (line 94), line 95 again selects no rows, and `.index(row.name)` at line 96 raises `ValueError` on the empty list. The model does not reproduce that failure.
- Upload.ToNumeric: text is treated as non-numeric. `pd.to_numeric` would also parse numeric text such as "42". In a column holding any non-numeric cell, the only case where `errors='coerce'` matters, `read_csv` delivers every cell as text, "42" included. Encoding such cells as `Number` is therefore the model's input convention, not what `read_csv` produces. Infinite values are not modelled.
- MoaColors.MoaColorMap.AssignNewMoaColors: the source walks a Python set, whose order is unspecified. The walk is an input, and any order without repeats is allowed. The contract fixes the colour by position in that walk, not by MOA.
- The `max_segments > 1` check that draws segment dividers (line 150) is left out. It is drawing only.

## Findings

| source | as written | input that shows it | evidently intended | confidence | as-written member | corrected member |
|---|---|---|---|---|---|---|
| bullseye_radar_app.py:198-200 | the angle list holds one angle per placed row, but row `idx` is drawn at `angles[idx]`, its raw row position | keys A, B, C, A with the default `max_segments=2`: C is dropped, the angles are 0.05·2π, 0.75·2π, 0.45·2π; row 2 (C) is drawn at 0.45·2π inside A's wedge, and row 3 (A) is not drawn | each row of a kept segment is drawn at the angle emitted for it (index = number of earlier placed rows); rows of dropped segments are not drawn | high; not executed | Renderer.AsWrittenMisplacesRows | Renderer.DrawnAngleIsOwnPosition |
