/** The citations part of the sidebar (app.py:241-265): one expander per
    retrieved reference, titled `Citation [key] - Reference N`, where N
    counts the references seen so far with the same key. The counts live in
    the dictionary `unique_citation_counts`, built in place; the counter `i`
    runs across all citation groups. Here, unlike the answer's reference
    list, the sequential key is the string `f"{i + 1}"`. */
module CitationPanel {
  import opened Common
  import opened Citations

  /** One expander: its key, its reference number and what it shows. */
  datatype Label = Label(key: string, reference: nat, generatedResponsePart: string, retrievedReference: RetrievedReference)

  /** "None" when there are no citations, otherwise the expanders in order. */
  datatype Panel = NoCitations | Expanders(labels: seq<Label>)

  /** A reference together with the response part of its group. */
  datatype Cited = Cited(generatedResponsePart: string, retrievedReference: RetrievedReference)

  function GroupCited(g: CitationGroup): seq<Cited> {
    seq(|g.retrievedReferences|, j requires 0 <= j < |g.retrievedReferences| => Cited(g.generatedResponsePart, g.retrievedReferences[j]))
  }

  /** Every reference with its group's response part, in group order and
      then within-group order. */
  function AllCited(groups: seq<CitationGroup>): seq<Cited>
    decreases |groups|
  {
    if |groups| == 0 then [] else AllCited(groups[..|groups| - 1]) + GroupCited(groups[|groups| - 1])
  }

  /** The key of reference `i` (app.py:247-249). */
  function PanelKey(i: nat, titan: bool, nums: seq<string>): (r: Result<string>)
    ensures !titan ==> r == Ok(NatToString(i + 1))
    ensures titan ==> (r.Ok? <==> i < |nums|) && (r.Ok? ==> r.value == nums[i])
  {
    if !titan then Ok(NatToString(i + 1))
    else if i < |nums| then Ok(nums[i])
    else Fail(IndexError)
  }

  /** `unique_citation_counts` after one more reference with key `k`. */
  function Count(counts: map<string, nat>, k: string): map<string, nat> {
    if k !in counts then counts[k := 1] else counts[k := counts[k] + 1]
  }

  /** The labels so far and `unique_citation_counts`. */
  datatype Tally = Tally(labels: seq<Label>, counts: map<string, nat>)

  /** One pass of the loop body for reference `i`. */
  function LabelStep(t: Tally, i: nat, c: Cited, titan: bool, nums: seq<string>): Result<Tally> {
    match PanelKey(i, titan, nums)
    case Fail(e) => Fail(e)
    case Ok(k) =>
      var counts := Count(t.counts, k);
      Ok(Tally(t.labels + [Label(k, counts[k], c.generatedResponsePart, c.retrievedReference)], counts))
  }

  /** The tally after the loop has run over `cs`. */
  function Labels(cs: seq<Cited>, titan: bool, nums: seq<string>): Result<Tally>
    decreases |cs|
  {
    if |cs| == 0 then Ok(Tally([], map[]))
    else
      match Labels(cs[..|cs| - 1], titan, nums)
      case Fail(e) => Fail(e)
      case Ok(t) => LabelStep(t, |cs| - 1, cs[|cs| - 1], titan, nums)
  }

  /** What the sidebar shows for the stored citations. */
  function PanelOf(groups: seq<CitationGroup>, titan: bool, nums: seq<string>): Result<Panel> {
    if |groups| == 0 then Ok(NoCitations)
    else
      match Labels(AllCited(groups), titan, nums)
      case Fail(c) => Fail(c)
      case Ok(t) => Ok(Expanders(t.labels))
  }

  // ---------------------------------------------------------------------
  // What the counter means
  // ---------------------------------------------------------------------

  /** How many of `ls` carry key `k`. */
  function Occurrences(ls: seq<Label>, k: string): nat
    decreases |ls|
  {
    if |ls| == 0 then 0 else Occurrences(ls[..|ls| - 1], k) + (if ls[|ls| - 1].key == k then 1 else 0)
  }

  /** The labels follow the references one for one, each with its key. */
  lemma {:induction false} LabelsFollow(cs: seq<Cited>, titan: bool, nums: seq<string>)
    requires Labels(cs, titan, nums).Ok?
    ensures var ls := Labels(cs, titan, nums).value.labels;
      && |ls| == |cs|
      && (titan ==> |cs| <= |nums|)
      && forall p :: 0 <= p < |ls| ==>
           && PanelKey(p, titan, nums) == Ok(ls[p].key)
           && ls[p].generatedResponsePart == cs[p].generatedResponsePart
           && ls[p].retrievedReference == cs[p].retrievedReference
    decreases |cs|
  {
    if |cs| > 0 {
      var i := |cs| - 1;
      LabelsFollow(cs[..i], titan, nums);
      var t := Labels(cs[..i], titan, nums).value;
      var k := PanelKey(i, titan, nums).value;
      var counts := Count(t.counts, k);
      var ls := t.labels + [Label(k, counts[k], cs[i].generatedResponsePart, cs[i].retrievedReference)];
      assert Labels(cs, titan, nums).value.labels == ls;
      forall p | 0 <= p < |ls|
        ensures && PanelKey(p, titan, nums) == Ok(ls[p].key)
                && ls[p].generatedResponsePart == cs[p].generatedResponsePart
                && ls[p].retrievedReference == cs[p].retrievedReference
      {
        if p < i {
          assert ls[p] == t.labels[p];
          assert cs[..i][p] == cs[p];
        }
      }
    }
  }

  /** `unique_citation_counts` holds, for each key, how many labels carry it,
      and each label's number is one more than the number of earlier labels
      with its key. */
  lemma {:induction false} LabelsCount(cs: seq<Cited>, titan: bool, nums: seq<string>)
    requires Labels(cs, titan, nums).Ok?
    ensures var t := Labels(cs, titan, nums).value;
      && (forall k :: k in t.counts <==> Occurrences(t.labels, k) > 0)
      && (forall k :: k in t.counts ==> t.counts[k] == Occurrences(t.labels, k))
      && (forall p :: 0 <= p < |t.labels| ==> t.labels[p].reference == Occurrences(t.labels[..p], t.labels[p].key) + 1)
    decreases |cs|
  {
    if |cs| > 0 {
      var i := |cs| - 1;
      LabelsCount(cs[..i], titan, nums);
      var t := Labels(cs[..i], titan, nums).value;
      var k := PanelKey(i, titan, nums).value;
      var t' := Labels(cs, titan, nums).value;
      CountStep(t, k, t', i, cs[i]);
    }
  }

  lemma CountStep(t: Tally, k: string, t': Tally, i: nat, c: Cited)
    requires forall x :: x in t.counts <==> Occurrences(t.labels, x) > 0
    requires forall x :: x in t.counts ==> t.counts[x] == Occurrences(t.labels, x)
    requires forall p :: 0 <= p < |t.labels| ==> t.labels[p].reference == Occurrences(t.labels[..p], t.labels[p].key) + 1
    requires t'.counts == Count(t.counts, k)
    requires t'.labels == t.labels + [Label(k, t'.counts[k], c.generatedResponsePart, c.retrievedReference)]
    ensures forall x :: x in t'.counts <==> Occurrences(t'.labels, x) > 0
    ensures forall x :: x in t'.counts ==> t'.counts[x] == Occurrences(t'.labels, x)
    ensures forall p :: 0 <= p < |t'.labels| ==> t'.labels[p].reference == Occurrences(t'.labels[..p], t'.labels[p].key) + 1
  {
    var ls, ls' := t.labels, t'.labels;
    assert ls'[..|ls|] == ls;
    forall x
      ensures Occurrences(ls', x) == Occurrences(ls, x) + (if x == k then 1 else 0)
    {
    }
    forall p | 0 <= p < |ls'|
      ensures ls'[p].reference == Occurrences(ls'[..p], ls'[p].key) + 1
    {
      if p < |ls| {
        assert ls'[..p] == ls[..p];
      }
    }
  }

  /** "Reference N" is at least 1, and two labels with the same key never
      carry the same number: the numbers of a key run 1, 2, 3, ... in order. */
  lemma ReferenceNumbers(cs: seq<Cited>, titan: bool, nums: seq<string>)
    requires Labels(cs, titan, nums).Ok?
    ensures var ls := Labels(cs, titan, nums).value.labels;
      && (forall p :: 0 <= p < |ls| ==> ls[p].reference >= 1)
      && (forall p, q :: 0 <= p < q < |ls| && ls[p].key == ls[q].key ==> ls[p].reference < ls[q].reference)
  {
    LabelsCount(cs, titan, nums);
    var ls := Labels(cs, titan, nums).value.labels;
    forall p, q | 0 <= p < q < |ls| && ls[p].key == ls[q].key
      ensures ls[p].reference < ls[q].reference
    {
      var k := ls[p].key;
      OccurrencesGrow(ls[..q], p + 1, k);
      assert ls[..q][..p + 1] == ls[..p + 1];
      assert ls[..p + 1][..p] == ls[..p];
      assert Occurrences(ls[..p + 1], k) == Occurrences(ls[..p], k) + 1;
    }
  }

  /** The occurrences in a longer prefix are at least those in a shorter one. */
  lemma {:induction false} OccurrencesGrow(ls: seq<Label>, n: nat, k: string)
    requires n <= |ls|
    ensures Occurrences(ls[..n], k) <= Occurrences(ls, k)
    decreases |ls| - n
  {
    if n < |ls| {
      OccurrencesGrow(ls, n + 1, k);
      assert ls[..n + 1][..n] == ls[..n];
    } else {
      assert ls[..n] == ls;
    }
  }

  /** In sequential mode every reference gets a distinct key, so every
      label says "Reference 1". */
  lemma SequentialAllFirst(cs: seq<Cited>, nums: seq<string>)
    ensures Labels(cs, false, nums).Ok?
    ensures forall p :: 0 <= p < |Labels(cs, false, nums).value.labels| ==> Labels(cs, false, nums).value.labels[p].reference == 1
  {
    SequentialSucceeds(cs, nums);
    LabelsFollow(cs, false, nums);
    LabelsCount(cs, false, nums);
    DistinctKeysFirst(Labels(cs, false, nums).value.labels, nums);
  }

  /** Labels each carrying its sequential key are all the first of their key. */
  lemma DistinctKeysFirst(ls: seq<Label>, nums: seq<string>)
    requires forall p :: 0 <= p < |ls| ==> PanelKey(p, false, nums) == Ok(ls[p].key)
    requires forall p :: 0 <= p < |ls| ==> ls[p].reference == Occurrences(ls[..p], ls[p].key) + 1
    ensures forall p :: 0 <= p < |ls| ==> ls[p].reference == 1
  {
    forall p | 0 <= p < |ls| ensures ls[p].reference == 1 {
      forall q | 0 <= q < p ensures ls[..p][q].key != ls[p].key {
        assert PanelKey(q, false, nums) == Ok(ls[q].key);
        NatToStringInjective(q + 1, p + 1);
      }
      NoOccurrences(ls[..p], ls[p].key);
    }
  }

  lemma {:induction false} SequentialSucceeds(cs: seq<Cited>, nums: seq<string>)
    ensures Labels(cs, false, nums).Ok?
    decreases |cs|
  {
    if |cs| > 0 {
      SequentialSucceeds(cs[..|cs| - 1], nums);
    }
  }

  lemma {:induction false} NoOccurrences(ls: seq<Label>, k: string)
    requires forall q :: 0 <= q < |ls| ==> ls[q].key != k
    ensures Occurrences(ls, k) == 0
    decreases |ls|
  {
    if |ls| > 0 {
      NoOccurrences(ls[..|ls| - 1], k);
    }
  }

  /** The only exception of the panel is `IndexError` at a key past the
      stored markers. */
  lemma {:induction false} LabelsCrashes(cs: seq<Cited>, titan: bool, nums: seq<string>)
    requires Labels(cs, titan, nums).Fail?
    ensures Labels(cs, titan, nums) == Fail(IndexError)
    decreases |cs|
  {
    if Labels(cs[..|cs| - 1], titan, nums).Fail? {
      LabelsCrashes(cs[..|cs| - 1], titan, nums);
    }
  }

  /** Titan mode fails with `IndexError` when there are more references than
      stored markers. */
  lemma {:induction false} LabelsFailWithoutMarker(cs: seq<Cited>, nums: seq<string>)
    requires |cs| > |nums|
    ensures Labels(cs, true, nums).Fail?
    ensures Labels(cs, true, nums) == Fail(IndexError)
  {
    if Labels(cs, true, nums).Ok? {
      LabelsFollow(cs, true, nums);
    }
    LabelsCrashes(cs, true, nums);
  }

  // ---------------------------------------------------------------------
  // The loop itself
  // ---------------------------------------------------------------------

  lemma AllCitedSnoc(groups: seq<CitationGroup>, g: nat)
    requires g < |groups|
    ensures AllCited(groups[..g + 1]) == AllCited(groups[..g]) + GroupCited(groups[g])
  {
    assert groups[..g + 1][..g] == groups[..g];
  }

  lemma {:induction false} LabelsFailurePersists(cs: seq<Cited>, n: nat, titan: bool, nums: seq<string>)
    requires n <= |cs| && Labels(cs[..n], titan, nums).Fail?
    ensures Labels(cs, titan, nums) == Labels(cs[..n], titan, nums)
    decreases |cs| - n
  {
    if n < |cs| {
      var longer := cs[..n + 1];
      assert longer[..n] == cs[..n];
      LabelsFailurePersists(cs, n + 1, titan, nums);
    } else {
      assert cs[..n] == cs;
    }
  }

  /** The update of `unique_citation_counts` for one reference (app.py:250-253). */
  method CountReference(counts: map<string, nat>, citationNum: string) returns (r: map<string, nat>)
    ensures r == Count(counts, citationNum)
    ensures citationNum in r && r[citationNum] >= 1
  {
    if citationNum !in counts {
      r := counts[citationNum := 1];
    } else {
      r := counts[citationNum := counts[citationNum] + 1];
    }
  }

  /** The body of the inner loop for reference `i`: its key, the count of
      the key, and the "Citation [key] - Reference N" label. */
  method LabelReference(t: Tally, i: nat, c: Cited, titan: bool, nums: seq<string>) returns (r: Result<Tally>)
    ensures r == LabelStep(t, i, c, titan, nums)
  {
    var citationNum := NatToString(i + 1);
    if titan {
      if i >= |nums| {
        return Fail(IndexError);
      }
      citationNum := nums[i];
    }
    var uniqueCitationCounts := CountReference(t.counts, citationNum);
    r := Ok(Tally(t.labels + [Label(citationNum, uniqueCitationCounts[citationNum], c.generatedResponsePart, c.retrievedReference)], uniqueCitationCounts));
  }

  method LabelGroup(g: CitationGroup, start: nat, labels: seq<Label>, counts: map<string, nat>,
                    titan: bool, nums: seq<string>, ghost done: seq<Cited>)
    returns (r: Result<Tally>)
    requires |done| == start && Labels(done, titan, nums) == Ok(Tally(labels, counts))
    ensures r == Labels(done + GroupCited(g), titan, nums)
  {
    var cs := GroupCited(g);
    var i := start;
    var ls := labels;
    var uniqueCitationCounts := counts;
    var j := 0;
    assert done + cs[..0] == done;
    while j < |cs|
      invariant 0 <= j <= |cs|
      invariant i == start + j
      invariant Labels(done + cs[..j], titan, nums) == Ok(Tally(ls, uniqueCitationCounts))
    {
      var step := LabelReference(Tally(ls, uniqueCitationCounts), i, cs[j], titan, nums);
      if step.Fail? {
        LabelsStepFails(done, cs, j, Tally(ls, uniqueCitationCounts), titan, nums);
        return step;
      }
      LabelsSnoc(done, cs, j, Tally(ls, uniqueCitationCounts), titan, nums);
      ls, uniqueCitationCounts := step.value.labels, step.value.counts;
      i := i + 1;
      j := j + 1;
    }
    assert cs[..j] == cs;
    r := Ok(Tally(ls, uniqueCitationCounts));
  }

  /** One more reference of the group, after a prefix that succeeded. */
  lemma LabelsSnoc(done: seq<Cited>, cs: seq<Cited>, j: nat, t: Tally, titan: bool, nums: seq<string>)
    requires j < |cs| && Labels(done + cs[..j], titan, nums) == Ok(t)
    ensures Labels(done + cs[..j + 1], titan, nums) == LabelStep(t, |done| + j, cs[j], titan, nums)
  {
    var upTo := done + cs[..j + 1];
    assert upTo[..|upTo| - 1] == done + cs[..j];
    assert upTo[|upTo| - 1] == cs[j];
  }

  /** A reference whose key cannot be read ends the whole panel. */
  lemma LabelsStepFails(done: seq<Cited>, cs: seq<Cited>, j: nat, t: Tally, titan: bool, nums: seq<string>)
    requires j < |cs| && Labels(done + cs[..j], titan, nums) == Ok(t)
    requires LabelStep(t, |done| + j, cs[j], titan, nums).Fail?
    ensures Labels(done + cs, titan, nums) == LabelStep(t, |done| + j, cs[j], titan, nums)
  {
    LabelsSnoc(done, cs, j, t, titan, nums);
    var upTo := done + cs[..j + 1];
    assert (done + cs)[..|upTo|] == upTo;
    LabelsFailurePersists(done + cs, |upTo|, titan, nums);
  }

  /** The citations section of `render_trace_section`. */
  method RenderCitations(citations: seq<CitationGroup>, titan: bool, nums: seq<string>) returns (r: Result<Panel>)
    ensures r == PanelOf(citations, titan, nums)
  {
    if |citations| == 0 {
      return Ok(NoCitations);
    }
    var labels: seq<Label> := [];
    var counts: map<string, nat> := map[];
    var i := 0;
    var g := 0;
    while g < |citations|
      invariant 0 <= g <= |citations|
      invariant i == |AllCited(citations[..g])|
      invariant Labels(AllCited(citations[..g]), titan, nums) == Ok(Tally(labels, counts))
    {
      AllCitedSnoc(citations, g);
      var step := LabelGroup(citations[g], i, labels, counts, titan, nums, AllCited(citations[..g]));
      if step.Fail? {
        AllCitedPrefix(citations, g + 1);
        LabelsFailurePersists(AllCited(citations), |AllCited(citations[..g + 1])|, titan, nums);
        return Fail(step.crash);
      }
      labels, counts := step.value.labels, step.value.counts;
      i := i + |citations[g].retrievedReferences|;
      g := g + 1;
    }
    assert citations[..g] == citations;
    r := Ok(Expanders(labels));
  }

  lemma {:induction false} AllCitedAppend(a: seq<CitationGroup>, b: seq<CitationGroup>)
    ensures AllCited(a + b) == AllCited(a) + AllCited(b)
    decreases |b|
  {
    if |b| == 0 {
      assert a + b == a;
    } else {
      var n := |b| - 1;
      assert (a + b)[..|a + b| - 1] == a + b[..n];
      assert (a + b)[|a + b| - 1] == b[n];
      AllCitedAppend(a, b[..n]);
    }
  }

  /** The references of the first `g` groups come first. */
  lemma AllCitedPrefix(groups: seq<CitationGroup>, g: nat)
    requires g <= |groups|
    ensures |AllCited(groups[..g])| <= |AllCited(groups)|
    ensures AllCited(groups)[..|AllCited(groups[..g])|] == AllCited(groups[..g])
  {
    assert groups == groups[..g] + groups[g..];
    AllCitedAppend(groups[..g], groups[g..]);
  }
}
