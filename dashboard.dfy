/**
 * The page state of script.js and the handlers that change it: `init`
 * fills `allData`, `updateCharts` recomputes `filteredData`, and the top-N
 * select and the two life-expectancy sliders feed `applyFilters`.
 */
module Dashboard {
  import opened Values
  import opened JsStrings
  import opened Merge
  import opened Validity
  import opened Sorting
  import opened ViewFilter

  class Page {
    /** The merged, gate-checked records (`allData`). */
    var allData: seq<CountryRecord>
    /** What the charts show (`filteredData`). */
    var filteredData: seq<CountryRecord>
    /** The value of the `lifeMin` and `lifeMax` sliders. */
    var lifeMin: real
    var lifeMax: real
    /** The numbers shown next to the sliders (`lifeMinVal`, `lifeMaxVal`). */
    var lifeMinLabel: real
    var lifeMaxLabel: real
    /** The value of the top-N select. */
    var topN: TopN

    /** The charts show exactly what the controls select from `allData`. */
    predicate Shown()
      reads this
    {
      filteredData == View(allData, lifeMin, lifeMax, topN)
    }

    /** The page before `init` has run: no data, the controls at their initial values. */
    constructor(lifeMin0: real, lifeMax0: real, topN0: TopN)
      ensures allData == [] && filteredData == []
      ensures lifeMin == lifeMin0 && lifeMax == lifeMax0 && topN == topN0
      ensures lifeMinLabel == lifeMin0 && lifeMaxLabel == lifeMax0
      ensures Shown()
    {
      allData, filteredData := [], [];
      lifeMin, lifeMax, topN := lifeMin0, lifeMax0, topN0;
      lifeMinLabel, lifeMaxLabel := lifeMin0, lifeMax0;
    }

    /**
     * `applyFilters()`: filter `allData` into a fresh sequence, copy it into
     * an array, sort that in place and cut it to the top N. `allData` is not
     * changed (the method modifies nothing of `this`).
     */
    method ApplyFilters() returns (data: seq<CountryRecord>)
      ensures data == View(allData, lifeMin, lifeMax, topN)
    {
      var inRange := RangeFilter(allData, lifeMin, lifeMax);
      var a := new CountryRecord[|inRange|](k requires 0 <= k < |inRange| => inRange[k]);
      assert a[..] == inRange;
      SortByGdpDescending(a);
      data := a[..];
      if topN.Top? {
        data := data[..Min(topN.n, |data|)];
      }
    }

    /** `updateCharts()`: recompute `filteredData`; `noData` is the empty-result branch. */
    method UpdateCharts() returns (noData: bool)
      modifies this
      ensures filteredData == View(allData, lifeMin, lifeMax, topN) && Shown()
      ensures noData <==> RangeFilter(allData, lifeMin, lifeMax) == [] || topN == Top(0)
      ensures allData == old(allData) && topN == old(topN)
      ensures lifeMin == old(lifeMin) && lifeMax == old(lifeMax)
      ensures lifeMinLabel == old(lifeMinLabel) && lifeMaxLabel == old(lifeMaxLabel)
    {
      filteredData := ApplyFilters();
      ViewEmpty(allData, lifeMin, lifeMax, topN);
      noData := |filteredData| == 0;
    }

    /** The `change` listener of the top-N select. */
    method OnTopNChange(value: TopN) returns (noData: bool)
      modifies this
      ensures topN == value && Shown()
      ensures allData == old(allData) && lifeMin == old(lifeMin) && lifeMax == old(lifeMax)
      ensures lifeMinLabel == old(lifeMinLabel) && lifeMaxLabel == old(lifeMaxLabel)
      ensures noData <==> filteredData == []
    {
      topN := value;
      noData := UpdateCharts();
    }

    /**
     * The `input` listener of the `lifeMin` slider: the slider takes the new
     * value, and when it passes `lifeMax` that slider is moved up to it, so
     * that afterwards lifeMin <= lifeMax.
     */
    method OnLifeMinInput(value: real) returns (noData: bool)
      modifies this
      ensures lifeMin == value && lifeMinLabel == value
      ensures value > old(lifeMax) ==> lifeMax == value && lifeMaxLabel == value
      ensures value <= old(lifeMax) ==> lifeMax == old(lifeMax) && lifeMaxLabel == old(lifeMaxLabel)
      ensures lifeMin <= lifeMax
      ensures allData == old(allData) && topN == old(topN) && Shown()
      ensures noData <==> filteredData == []
    {
      lifeMin := value;
      lifeMinLabel := value;
      if value > lifeMax {
        lifeMax := value;
        lifeMaxLabel := value;
      }
      noData := UpdateCharts();
    }

    /**
     * The `input` listener of the `lifeMax` slider: the mirror image, moving
     * `lifeMin` down when the new maximum falls below it.
     */
    method OnLifeMaxInput(value: real) returns (noData: bool)
      modifies this
      ensures lifeMax == value && lifeMaxLabel == value
      ensures value < old(lifeMin) ==> lifeMin == value && lifeMinLabel == value
      ensures value >= old(lifeMin) ==> lifeMin == old(lifeMin) && lifeMinLabel == old(lifeMinLabel)
      ensures lifeMin <= lifeMax
      ensures allData == old(allData) && topN == old(topN) && Shown()
      ensures noData <==> filteredData == []
    {
      lifeMax := value;
      lifeMaxLabel := value;
      if value < lifeMin {
        lifeMin := value;
        lifeMinLabel := value;
      }
      noData := UpdateCharts();
    }

    /**
     * `init()` after both sheets have loaded: merge, keep the records that
     * pass the gate, and draw. When the merge throws, `init` stops before
     * assigning `allData` and nothing changes.
     */
    method Init(gdp: seq<Row>, life: seq<Row>) returns (ok: bool)
      modifies this
      ensures ok <==> Merged(gdp, life).Ok?
      ensures ok ==> allData == ValidOnly(Merged(gdp, life).value) && Shown()
      ensures !ok ==> allData == old(allData) && filteredData == old(filteredData)
      ensures lifeMin == old(lifeMin) && lifeMax == old(lifeMax) && topN == old(topN)
      ensures lifeMinLabel == old(lifeMinLabel) && lifeMaxLabel == old(lifeMaxLabel)
    {
      var merged := MergeDatasets(gdp, life);
      if merged.TypeError? {
        return false;
      }
      allData := ValidOnly(merged.value);
      var _ := UpdateCharts();
      ok := true;
    }
  }
}
