/** `utils.GetMaxValue`: the largest element of a slice, or an error for an empty one. */
module SliceHelper {
  import opened GoTypes
  import opened Errors

  /**
   * The value the left-to-right scan ends with: the first element, replaced by every later
   * element that is strictly larger.
   */
  function MaxOf(s: seq<int64>): (m: int64)
    requires |s| > 0
  {
    if |s| == 1 then s[0]
    else
      var m := MaxOf(s[..|s| - 1]);
      if s[|s| - 1] > m then s[|s| - 1] else m
  }

  lemma {:induction false} MaxOfIsUpperBound(s: seq<int64>)
    requires |s| > 0
    ensures forall i :: 0 <= i < |s| ==> s[i] <= MaxOf(s)
  {
    if |s| > 1 {
      MaxOfIsUpperBound(s[..|s| - 1]);
      assert forall i :: 0 <= i < |s| - 1 ==> s[..|s| - 1][i] == s[i];
    }
  }

  lemma {:induction false} MaxOfIsElement(s: seq<int64>)
    requires |s| > 0
    ensures MaxOf(s) in s
  {
    if |s| > 1 {
      MaxOfIsElement(s[..|s| - 1]);
      assert MaxOf(s[..|s| - 1]) in s[..|s| - 1];
    }
  }

  /** The maximum is the only element that bounds all the others. */
  lemma MaxOfUnique(s: seq<int64>, m: int64)
    requires m in s && forall i :: 0 <= i < |s| ==> s[i] <= m
    ensures MaxOf(s) == m
  {
    MaxOfIsUpperBound(s);
    MaxOfIsElement(s);
  }

  /** The result pair `(int, error)` of GetMaxValue, as a function of the slice. */
  function MaxValue(s: seq<int64>): (r: (int64, Option<Error>))
    ensures |s| == 0 <==> r.1 == Some(SliceEmpty)
    ensures |s| == 0 ==> r.0 == 0
    ensures |s| > 0 ==> r.1 == None && r.0 in s && forall i :: 0 <= i < |s| ==> s[i] <= r.0
  {
    if |s| == 0 then (0, Some(SliceEmpty))
    else
      MaxOfIsUpperBound(s);
      MaxOfIsElement(s);
      (MaxOf(s), None)
  }

  /** The scan of GetMaxValue. The slice is a value, so the scan cannot change it. */
  method GetMaxValue(data: seq<int64>) returns (maxVal: int64, err: Option<Error>)
    ensures (maxVal, err) == MaxValue(data)
    ensures |data| == 0 <==> err.Some?
    ensures err.Some? ==> maxVal == 0 && err.value.Message() == "slice is empty"
    ensures err.None? ==> maxVal in data && forall i :: 0 <= i < |data| ==> data[i] <= maxVal
  {
    if |data| == 0 {
      return 0, Some(SliceEmpty);
    }
    maxVal := data[0];
    for i := 0 to |data|
      invariant maxVal == if i == 0 then data[0] else MaxOf(data[..i])
    {
      assert data[..i + 1][..i] == data[..i];
      if data[i] > maxVal {
        maxVal := data[i];
      }
    }
    assert data[..|data|] == data;
    err := None;
  }

  // The cases of the unit test table.

  lemma MaxValueExamples()
    ensures MaxValue([]) == (0, Some(SliceEmpty))
    ensures MaxValue([1, 5, 2, 8, 3]).0 == 8
    ensures MaxValue([-10, -5, -20, -1, -3]).0 == -1
    ensures MaxValue([-5, 0, 10, -2, 7]).0 == 10
    ensures MaxValue([42]).0 == 42
    ensures MaxValue([10, 5, 10, 2, 7]).0 == 10
  {
    MaxOfUnique([1, 5, 2, 8, 3], 8);
    MaxOfUnique([-10, -5, -20, -1, -3], -1);
    MaxOfUnique([-5, 0, 10, -2, 7], 10);
    MaxOfUnique([10, 5, 10, 2, 7], 10);
  }
}
