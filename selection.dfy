/** The "closest dose" selection that both the worker and the dashboard run over
    their medicine list: walk the list in order, skip the entries without a candidate
    instant, and replace the current best only when a candidate is strictly earlier. */
module Selection {
  import opened Medicines

  /** The position of the chosen medicine in the list and its dose instant. */
  datatype Choice = Choice(index: nat, time: int)

  /** The result of the walk over `times` (`None` = skipped entry). It is defined on
      prefixes, exactly as a left-to-right loop computes it. */
  function FirstEarliest(times: seq<Option<int>>): (r: Option<Choice>)
    ensures r.None? <==> forall i :: 0 <= i < |times| ==> times[i].None?
    ensures r.Some? ==> r.value.index < |times| && times[r.value.index] == Some(r.value.time)
    ensures r.Some? ==> forall i :: 0 <= i < |times| && times[i].Some? ==> r.value.time <= times[i].value
    ensures r.Some? ==> forall i :: 0 <= i < r.value.index && times[i].Some? ==> r.value.time < times[i].value
  {
    if |times| == 0 then None
    else
      var init := times[..|times| - 1];
      assert forall i :: 0 <= i < |init| ==> init[i] == times[i];
      var best := FirstEarliest(init);
      var last := times[|times| - 1];
      if last.Some? && (best.None? || last.value < best.value.time) then Some(Choice(|times| - 1, last.value))
      else best
  }

  /** One step of the walk: the entry at position `i` replaces the choice over the
      entries before it only when it is strictly earlier. */
  lemma FirstEarliestStep(times: seq<Option<int>>, i: nat)
    requires i < |times|
    ensures var best := FirstEarliest(times[..i]);
      FirstEarliest(times[..i + 1])
        == if times[i].Some? && (best.None? || times[i].value < best.value.time) then Some(Choice(i, times[i].value))
           else best
  {
    assert times[..i + 1][..i] == times[..i];
  }

  /** The selection is determined by its contract: the earliest candidate, and among
      equally early ones the first in list order. */
  lemma FirstEarliestUnique(times: seq<Option<int>>, c: Choice)
    requires c.index < |times| && times[c.index] == Some(c.time)
    requires forall i :: 0 <= i < |times| && times[i].Some? ==> c.time <= times[i].value
    requires forall i :: 0 <= i < c.index && times[i].Some? ==> c.time < times[i].value
    ensures FirstEarliest(times) == Some(c)
  {
  }
}
