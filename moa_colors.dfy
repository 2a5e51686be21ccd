/**
  The MOA (mechanism of action) colour map of the radar app: a dict from MOA to
  display colour that remembers insertion order, the colours it hands to MOAs
  first seen in an upload, and the legend built from it.
*/
module MoaColors {
  import opened Frame

  /** The colours handed out, in turn, to MOAs not yet in the map. */
  const Palette: seq<string> := ["#FF6B6B", "#4ECDC4", "#45B7D1", "#96CEB4", "#FFEAA7", "#DDA0DD", "#98D8C8", "#F7DC6F"]

  /** The column of the assets frame that names each asset's MOA. */
  const MoaColumn: string := "MOA"

  /** `st.session_state.moa_colors`: colours by MOA, with the dict's insertion order. */
  class MoaColorMap {
    var order: seq<Cell>
    var colors: map<Cell, string>

    ghost predicate Valid()
      reads this
    {
      Distinct(order) && forall m :: m in colors <==> m in order
    }

    constructor (initialOrder: seq<Cell>, initialColors: map<Cell, string>)
      requires Distinct(initialOrder)
      requires forall m :: m in initialColors <==> m in initialOrder
      ensures Valid() && order == initialOrder && colors == initialColors
    {
      order := initialOrder;
      colors := initialColors;
    }

    /**
      After an upload is accepted, every MOA of the upload that has no colour yet gets the
      next palette colour, cycling through the palette, and is added at the
      end of the map. The source walks a Python set, whose order is not
      specified, so `newMoas` is that walk: each new MOA once, in any order.
      Colours already in the map are never changed.
    */
    method AssignNewMoaColors(uploadedMoas: seq<Cell>, newMoas: seq<Cell>)
      requires Valid()
      requires Distinct(newMoas)
      requires forall m :: m in newMoas <==> m in uploadedMoas && m !in colors
      modifies this
      ensures Valid()
      ensures order == old(order) + newMoas
      ensures forall m :: m in old(colors) ==> m in colors && colors[m] == old(colors)[m]
      ensures forall i :: 0 <= i < |newMoas| ==> newMoas[i] in colors && colors[newMoas[i]] == Palette[i % |Palette|]
      ensures forall m :: m in colors <==> m in old(colors) || m in uploadedMoas
    {
      var i := 0;
      while i < |newMoas|
        invariant 0 <= i <= |newMoas|
        invariant order == old(order) + newMoas[..i]
        invariant forall m :: m in colors <==> m in old(colors) || m in newMoas[..i]
        invariant forall m :: m in old(colors) ==> colors[m] == old(colors)[m]
        invariant forall j :: 0 <= j < i ==> colors[newMoas[j]] == Palette[j % |Palette|]
        invariant Valid()
      {
        var moa := newMoas[i];
        assert moa !in newMoas[..i];
        colors := colors[moa := Palette[i % |Palette|]];
        order := order + [moa];
        assert newMoas[..i + 1] == newMoas[..i] + [moa];
        i := i + 1;
      }
      assert newMoas[..i] == newMoas;
    }
  }

  /** One row of the MOA legend: the MOA, its colour and its number of assets. */
  datatype LegendRow = LegendRow(moa: Cell, color: string, count: nat)

  /** `len(assets_data[assets_data['MOA'] == moa])`, or 0 without an MOA column. */
  function MoaCount(data: Frame, moa: Cell): (n: nat)
    ensures n > 0 <==> MoaColumn in data.columns && moa in data.columns[MoaColumn]
  {
    if MoaColumn in data.columns then Count(data.columns[MoaColumn], moa) else 0
  }

  /** The MOAs of the legend's rows, in order. */
  function LegendMoas(legend: seq<LegendRow>): (moas: seq<Cell>)
    ensures |moas| == |legend|
    ensures forall k :: 0 <= k < |legend| ==> moas[k] == legend[k].moa
  {
    seq(|legend|, k requires 0 <= k < |legend| => legend[k].moa)
  }

  /**
    `create_moa_legend` over the MOAs `moas` of the colour map:
    one row per MOA that at least one asset has, with its colour and count.
  */
  function Legend(moas: seq<Cell>, colors: map<Cell, string>, data: Frame): (legend: seq<LegendRow>)
    requires forall m :: m in moas ==> m in colors
    ensures forall k :: 0 <= k < |legend| ==>
      && legend[k].moa in moas
      && legend[k].count > 0
      && legend[k].count == MoaCount(data, legend[k].moa)
      && legend[k].color == colors[legend[k].moa]
    ensures MoaColumn !in data.columns ==> legend == []
  {
    if moas == [] then []
    else
      var rest := Legend(moas[1..], colors, data);
      var count := MoaCount(data, moas[0]);
      if count > 0 then [LegendRow(moas[0], colors[moas[0]], count)] + rest else rest
  }

  /** Adding one more MOA of the map adds its row, if any, after the others. */
  lemma {:induction false} LegendAppend(moas: seq<Cell>, colors: map<Cell, string>, data: Frame, m: Cell)
    requires forall x :: x in moas ==> x in colors
    requires m in colors
    ensures Legend(moas + [m], colors, data) ==
      Legend(moas, colors, data) + (if MoaCount(data, m) > 0 then [LegendRow(m, colors[m], MoaCount(data, m))] else [])
  {
    if moas != [] {
      assert (moas + [m])[1..] == moas[1..] + [m];
      LegendAppend(moas[1..], colors, data, m);
    }
  }

  /** The first step of `Legend`: the row of the first MOA, if it has assets, then the rest. */
  lemma LegendStep(moas: seq<Cell>, colors: map<Cell, string>, data: Frame)
    requires moas != [] && forall m :: m in moas ==> m in colors
    ensures var rest := LegendMoas(Legend(moas[1..], colors, data));
      LegendMoas(Legend(moas, colors, data)) == (if MoaCount(data, moas[0]) > 0 then [moas[0]] + rest else rest)
  {
    var rest := Legend(moas[1..], colors, data);
    if MoaCount(data, moas[0]) > 0 {
      var row := LegendRow(moas[0], colors[moas[0]], MoaCount(data, moas[0]));
      assert LegendMoas([row] + rest) == [moas[0]] + LegendMoas(rest);
    }
  }

  /** The legend has a row for exactly the MOAs of the map that at least one asset has. */
  lemma {:induction false} LegendListsPresentMoas(moas: seq<Cell>, colors: map<Cell, string>, data: Frame)
    requires forall m :: m in moas ==> m in colors
    ensures forall m :: m in LegendMoas(Legend(moas, colors, data)) <==> m in moas && MoaCount(data, m) > 0
  {
    if moas != [] {
      LegendListsPresentMoas(moas[1..], colors, data);
      LegendStep(moas, colors, data);
      assert moas == [moas[0]] + moas[1..];
    }
  }

  /** The legend lists its MOAs in colour-map order. */
  lemma {:induction false} LegendFollowsMapOrder(moas: seq<Cell>, colors: map<Cell, string>, data: Frame)
    requires forall m :: m in moas ==> m in colors
    ensures IsSubsequence(LegendMoas(Legend(moas, colors, data)), moas)
  {
    if moas != [] {
      LegendFollowsMapOrder(moas[1..], colors, data);
      LegendStep(moas, colors, data);
      var rest := Legend(moas[1..], colors, data);
      var restMoas := LegendMoas(rest);
      if MoaCount(data, moas[0]) > 0 {
        assert ([moas[0]] + restMoas)[1..] == restMoas;
      } else if restMoas != [] {
        assert rest[0].count > 0;
      }
    }
  }

  /**
    `create_moa_legend`: walks the colour map in insertion order and keeps
    the MOAs that at least one asset has.
  */
  method CreateMoaLegend(colorMap: MoaColorMap, assetsData: Frame) returns (legend: seq<LegendRow>)
    requires colorMap.Valid()
    ensures legend == Legend(colorMap.order, colorMap.colors, assetsData)
  {
    var moas := colorMap.order;
    legend := [];
    var i := 0;
    while i < |moas|
      invariant i <= |moas|
      invariant legend == Legend(moas[..i], colorMap.colors, assetsData)
    {
      var moa := moas[i];
      var count := MoaCount(assetsData, moa);
      LegendAppend(moas[..i], colorMap.colors, assetsData, moa);
      assert moas[..i + 1] == moas[..i] + [moa];
      if count > 0 {
        legend := legend + [LegendRow(moa, colorMap.colors[moa], count)];
      }
      i := i + 1;
    }
    assert moas[..i] == moas;
  }
}
