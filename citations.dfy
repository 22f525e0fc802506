/** The citation block of the answer handler (app.py:141-175): each retrieved
    reference gets a display key, the first reference of a key whose location
    type is known gives that key its locator, and the key/locator pairs,
    ordered by the integer value of the key, are appended to the answer. */
module Citations {
  import opened Common

  // ---------------------------------------------------------------------
  // The agent's citations
  // ---------------------------------------------------------------------

  /** `retrieved_ref['location']`: the `type` tag and the type-specific
      sub-records (`s3Location`, `webLocation`, ...), each a map of fields. */
  datatype Location = Location(locType: string, records: map<string, map<string, string>>)

  datatype RetrievedReference = RetrievedReference(location: Location)

  /** One citation: a generated response part and the references behind it. */
  datatype CitationGroup = CitationGroup(generatedResponsePart: string, retrievedReferences: seq<RetrievedReference>)

  /** All retrieved references, in group order and then within-group order. */
  function Flatten(groups: seq<CitationGroup>): seq<RetrievedReference> {
    if |groups| == 0 then [] else groups[0].retrievedReferences + Flatten(groups[1..])
  }

  lemma {:induction false} FlattenAppend(a: seq<CitationGroup>, b: seq<CitationGroup>)
    ensures Flatten(a + b) == Flatten(a) + Flatten(b)
    decreases |a|
  {
    if |a| > 0 {
      assert (a + b)[1..] == a[1..] + b;
      FlattenAppend(a[1..], b);
    } else {
      assert a + b == b;
    }
  }

  /** The references of the first `g + 1` groups are those of the first `g`
      followed by those of group `g`. */
  lemma FlattenSnoc(groups: seq<CitationGroup>, g: nat)
    requires g < |groups|
    ensures Flatten(groups[..g + 1]) == Flatten(groups[..g]) + groups[g].retrievedReferences
  {
    assert groups[..g + 1] == groups[..g] + [groups[g]];
    FlattenAppend(groups[..g], [groups[g]]);
  }

  /** Reference `j` of group `g` is reference number `|Flatten(groups[..g])| + j`
      of the whole turn: references are counted across groups, in group order
      and then within-group order. */
  lemma FlattenIndex(groups: seq<CitationGroup>, g: nat, j: nat)
    requires g < |groups| && j < |groups[g].retrievedReferences|
    ensures |Flatten(groups[..g])| + j < |Flatten(groups)|
    ensures Flatten(groups)[|Flatten(groups[..g])| + j] == groups[g].retrievedReferences[j]
  {
    FlattenSnoc(groups, g);
    assert groups == groups[..g + 1] + groups[g + 1..];
    FlattenAppend(groups[..g + 1], groups[g + 1..]);
  }

  // ---------------------------------------------------------------------
  // Location types (app.py:150-168)
  // ---------------------------------------------------------------------

  const KnownTypes: set<string> :=
    {"CONFLUENCE", "CUSTOM", "KENDRA", "S3", "SALESFORCE", "SHAREPOINT", "SQL", "WEB"}

  /** The sub-record and the field that each known location type reads. */
  function LocatorField(locType: string): (f: Option<(string, string)>)
    ensures f.Some? <==> locType in KnownTypes
  {
    match locType
    case "CONFLUENCE" => Some(("confluenceLocation", "url"))
    case "CUSTOM" => Some(("customDocumentLocation", "id"))
    case "KENDRA" => Some(("kendraDocumentLocation", "uri"))
    case "S3" => Some(("s3Location", "uri"))
    case "SALESFORCE" => Some(("salesforceLocation", "url"))
    case "SHAREPOINT" => Some(("sharePointLocation", "url"))
    case "SQL" => Some(("sqlLocation", "query"))
    case "WEB" => Some(("webLocation", "url"))
    case _ => None
  }

  /** What the `match` on the location type makes of one reference: its
      locator, an unknown type (a logged warning), or a missing sub-record or
      field (a `KeyError`). */
  datatype Resolution = Found(locator: string) | UnknownType(tag: string) | MissingField(key: string)

  function Resolve(loc: Location): (r: Resolution)
    ensures r.UnknownType? <==> loc.locType !in KnownTypes
    ensures r.UnknownType? ==> r.tag == loc.locType
    ensures r.Found? ==>
      exists rec, field :: LocatorField(loc.locType) == Some((rec, field))
        && rec in loc.records && field in loc.records[rec] && r.locator == loc.records[rec][field]
    ensures r.MissingField? ==>
      exists rec, field :: LocatorField(loc.locType) == Some((rec, field))
        && (rec !in loc.records || field !in loc.records[rec])
  {
    match LocatorField(loc.locType)
    case None => UnknownType(loc.locType)
    case Some((rec, field)) =>
      if rec !in loc.records then MissingField(rec)
      else if field !in loc.records[rec] then MissingField(field)
      else Found(loc.records[rec][field])
  }

  /** Each known type reads its designated field. */
  lemma ResolveTable(loc: Location, value: string)
    requires loc.locType in KnownTypes
    ensures loc.locType in {"CONFLUENCE", "SALESFORCE", "SHAREPOINT", "WEB"} ==>
      var rec := match loc.locType
                 case "CONFLUENCE" => "confluenceLocation"
                 case "SALESFORCE" => "salesforceLocation"
                 case "SHAREPOINT" => "sharePointLocation"
                 case _ => "webLocation";
      (rec in loc.records && "url" in loc.records[rec] ==> Resolve(loc) == Found(loc.records[rec]["url"]))
    ensures loc.locType == "CUSTOM" && "customDocumentLocation" in loc.records && "id" in loc.records["customDocumentLocation"]
      ==> Resolve(loc) == Found(loc.records["customDocumentLocation"]["id"])
    ensures loc.locType == "KENDRA" && "kendraDocumentLocation" in loc.records && "uri" in loc.records["kendraDocumentLocation"]
      ==> Resolve(loc) == Found(loc.records["kendraDocumentLocation"]["uri"])
    ensures loc.locType == "S3" && "s3Location" in loc.records && "uri" in loc.records["s3Location"]
      ==> Resolve(loc) == Found(loc.records["s3Location"]["uri"])
    ensures loc.locType == "SQL" && "sqlLocation" in loc.records && "query" in loc.records["sqlLocation"]
      ==> Resolve(loc) == Found(loc.records["sqlLocation"]["query"])
  {
  }

  // ---------------------------------------------------------------------
  // Display keys (app.py:145-147) and their integer value (app.py:170)
  // ---------------------------------------------------------------------

  /** A display key: `i + 1` in sequential mode, a marker's digit string in
      Titan mode. */
  datatype Key = Seq(n: nat) | Tag(digits: string)

  /** A key that `int(key)` accepts. */
  predicate ValidKey(k: Key) {
    k.Tag? ==> |k.digits| > 0 && IsDigits(k.digits)
  }

  /** `int(key)`, the sort key. */
  function KeyValue(k: Key): nat
    requires ValidKey(k)
  {
    match k
    case Seq(n) => n
    case Tag(d) => DigitsValue(d)
  }

  /** `f"{key}"`, the text shown in `[key]`. */
  function KeyText(k: Key): string {
    match k
    case Seq(n) => NatToString(n)
    case Tag(d) => d
  }

  /** The sort key of a key is the integer its text denotes. */
  lemma KeyValueOfText(k: Key)
    requires ValidKey(k)
    ensures IsDigits(KeyText(k)) && DigitsValue(KeyText(k)) == KeyValue(k)
  {
    if k.Seq? {
      NatToStringRoundTrip(k.n);
    }
  }

  /** The key of the `i`-th retrieved reference; in Titan mode a reference
      with no collected marker is an `IndexError`. */
  function KeyAt(i: nat, titan: bool, nums: seq<string>): (r: Result<Key>)
    ensures !titan ==> r == Ok(Seq(i + 1))
    ensures titan ==> (r.Ok? <==> i < |nums|) && (r.Ok? ==> r.value == Tag(nums[i]))
  {
    if !titan then Ok(Seq(i + 1))
    else if i < |nums| then Ok(Tag(nums[i]))
    else Fail(IndexError)
  }

  /** In sequential mode reference `j` of group `g` is keyed by its position
      across all groups plus one. */
  lemma SequentialKeyOf(groups: seq<CitationGroup>, g: nat, j: nat)
    requires g < |groups| && j < |groups[g].retrievedReferences|
    ensures var i := |Flatten(groups[..g])| + j;
      i < |Flatten(groups)| && Flatten(groups)[i] == groups[g].retrievedReferences[j]
      && KeyAt(i, false, []) == Ok(Seq(i + 1))
  {
    FlattenIndex(groups, g, j);
  }

  /** Two groups of two and one references are keyed 1, 2 and 3. */
  lemma SequentialKeysExample(groups: seq<CitationGroup>)
    requires |groups| == 2
    requires |groups[0].retrievedReferences| == 2 && |groups[1].retrievedReferences| == 1
    ensures Flatten(groups) == groups[0].retrievedReferences + groups[1].retrievedReferences
    ensures Flatten(groups)[0] == groups[0].retrievedReferences[0]
    ensures Flatten(groups)[1] == groups[0].retrievedReferences[1]
    ensures Flatten(groups)[2] == groups[1].retrievedReferences[0]
    ensures [KeyAt(0, false, []), KeyAt(1, false, []), KeyAt(2, false, [])] == [Ok(Seq(1)), Ok(Seq(2)), Ok(Seq(3))]
  {
    assert groups[1..][1..] == [];
    assert Flatten(groups[1..]) == groups[1].retrievedReferences + Flatten(groups[1..][1..]);
  }

  // ---------------------------------------------------------------------
  // The key/locator loop (app.py:141-169), as a specification
  // ---------------------------------------------------------------------

  /** An entry of `citation_locs`, which keeps insertion order. */
  datatype Entry = Entry(key: Key, locator: string)

  predicate HasKey(es: seq<Entry>, k: Key) {
    exists p :: 0 <= p < |es| && es[p].key == k
  }

  /** One pass of the loop body for reference `i`. */
  function LocateStep(es: seq<Entry>, i: nat, ref: RetrievedReference, titan: bool, nums: seq<string>): Result<seq<Entry>> {
    match KeyAt(i, titan, nums)
    case Fail(c) => Fail(c)
    case Ok(k) =>
      if HasKey(es, k) then Ok(es)
      else
        match Resolve(ref.location)
        case Found(loc) => Ok(es + [Entry(k, loc)])
        case UnknownType(_) => Ok(es)
        case MissingField(f) => Fail(KeyError(f))
  }

  /** `citation_locs` after the loop has run over `refs`. */
  function Locate(refs: seq<RetrievedReference>, titan: bool, nums: seq<string>): Result<seq<Entry>>
    decreases |refs|
  {
    if |refs| == 0 then Ok([])
    else
      match Locate(refs[..|refs| - 1], titan, nums)
      case Fail(c) => Fail(c)
      case Ok(es) => LocateStep(es, |refs| - 1, refs[|refs| - 1], titan, nums)
  }

  /** A failure on a prefix of the references is the failure of the whole loop. */
  lemma {:induction false} LocateFailurePersists(refs: seq<RetrievedReference>, n: nat, titan: bool, nums: seq<string>)
    requires n <= |refs| && Locate(refs[..n], titan, nums).Fail?
    ensures Locate(refs, titan, nums) == Locate(refs[..n], titan, nums)
    decreases |refs| - n
  {
    if n < |refs| {
      var longer := refs[..n + 1];
      assert longer[..n] == refs[..n];
      assert Locate(longer, titan, nums) == Locate(refs[..n], titan, nums);
      LocateFailurePersists(refs, n + 1, titan, nums);
    } else {
      assert refs[..n] == refs;
    }
  }

  /** No key appears twice in `citation_locs`. */
  ghost predicate DistinctKeys(es: seq<Entry>) {
    forall p, q :: 0 <= p < q < |es| ==> es[p].key != es[q].key
  }

  /** Reference `i` is the first reference of key `k` with a known type,
      and its locator is `loc`. */
  ghost predicate FirstOfKey(refs: seq<RetrievedReference>, titan: bool, nums: seq<string>, i: nat, k: Key, loc: string) {
    && i < |refs|
    && KeyAt(i, titan, nums) == Ok(k)
    && Resolve(refs[i].location) == Found(loc)
    && forall j :: 0 <= j < i && KeyAt(j, titan, nums) == Ok(k) ==> Resolve(refs[j].location).UnknownType?
  }

  /** One pass of the loop body only ever appends to `citation_locs`. */
  lemma LocateStepGrows(es: seq<Entry>, i: nat, ref: RetrievedReference, titan: bool, nums: seq<string>)
    requires LocateStep(es, i, ref, titan, nums).Ok?
    ensures var es' := LocateStep(es, i, ref, titan, nums).value; |es| <= |es'| && es'[..|es|] == es
  {
  }

  /** Every reference whose lookup succeeded and whose type is known leaves
      its key in `citation_locs`. */
  lemma {:induction false} LocateKeepsFound(refs: seq<RetrievedReference>, titan: bool, nums: seq<string>, i: nat)
    requires Locate(refs, titan, nums).Ok? && i < |refs|
    ensures KeyAt(i, titan, nums).Ok?
    ensures !Resolve(refs[i].location).UnknownType? ==> HasKey(Locate(refs, titan, nums).value, KeyAt(i, titan, nums).value)
    decreases |refs|
  {
    var n := |refs| - 1;
    var es := LocateLast(refs, titan, nums);
    var es' := Locate(refs, titan, nums).value;
    LocateStepGrows(es, n, refs[n], titan, nums);
    if i < n {
      LocateKeepsFound(refs[..n], titan, nums, i);
      if !Resolve(refs[i].location).UnknownType? {
        assert refs[..n][i] == refs[i];
        HasKeyGrows(es, es', KeyAt(i, titan, nums).value);
      }
    } else if !HasKey(es, KeyAt(i, titan, nums).value) && Resolve(refs[i].location).Found? {
      assert es'[|es|].key == KeyAt(i, titan, nums).value;
    }
  }

  lemma LocateLast(refs: seq<RetrievedReference>, titan: bool, nums: seq<string>) returns (es: seq<Entry>)
    requires |refs| > 0 && Locate(refs, titan, nums).Ok?
    ensures Locate(refs[..|refs| - 1], titan, nums) == Ok(es)
    ensures LocateStep(es, |refs| - 1, refs[|refs| - 1], titan, nums) == Locate(refs, titan, nums)
  {
    es := Locate(refs[..|refs| - 1], titan, nums).value;
  }

  lemma HasKeyGrows(es: seq<Entry>, es': seq<Entry>, k: Key)
    requires |es| <= |es'| && es'[..|es|] == es && HasKey(es, k)
    ensures HasKey(es', k)
  {
    var p :| 0 <= p < |es| && es[p].key == k;
    assert es'[p] == es[p];
  }

  /** The facts about the first `n` references carry over to `n + 1`. */
  lemma FirstOfKeyExtends(refs: seq<RetrievedReference>, titan: bool, nums: seq<string>, es: seq<Entry>, firsts: seq<nat>)
    requires |refs| > 0 && |firsts| == |es|
    requires forall p :: 0 <= p < |es| ==> FirstOfKey(refs[..|refs| - 1], titan, nums, firsts[p], es[p].key, es[p].locator)
    ensures forall p :: 0 <= p < |es| ==> FirstOfKey(refs, titan, nums, firsts[p], es[p].key, es[p].locator)
  {
    var init := refs[..|refs| - 1];
    forall p | 0 <= p < |es|
      ensures FirstOfKey(refs, titan, nums, firsts[p], es[p].key, es[p].locator)
    {
      assert forall j :: 0 <= j <= firsts[p] ==> init[j] == refs[j];
    }
  }

  /** When the loop succeeds, every entry comes from the first reference of
      its key whose type is known, the entries are in the order of those
      references, and no key appears twice. The returned sequence names
      those references. */
  lemma {:induction false} LocateFirstWins(refs: seq<RetrievedReference>, titan: bool, nums: seq<string>) returns (firsts: seq<nat>)
    requires Locate(refs, titan, nums).Ok?
    ensures var es := Locate(refs, titan, nums).value;
      && |firsts| == |es|
      && DistinctKeys(es)
      && (forall p :: 0 <= p < |es| ==> FirstOfKey(refs, titan, nums, firsts[p], es[p].key, es[p].locator))
      && (forall p, q :: 0 <= p < q < |es| ==> firsts[p] < firsts[q])
    decreases |refs|
  {
    if |refs| == 0 {
      firsts := [];
    } else {
      var n := |refs| - 1;
      var init := refs[..n];
      var prev := LocateFirstWins(init, titan, nums);
      var es := Locate(init, titan, nums).value;
      var k := KeyAt(n, titan, nums).value;
      FirstOfKeyExtends(refs, titan, nums, es, prev);
      assert forall p :: 0 <= p < |es| ==> prev[p] < n;
      if !HasKey(es, k) && Resolve(refs[n].location).Found? {
        var loc := Resolve(refs[n].location).locator;
        firsts := prev + [n];
        forall j | 0 <= j < n && KeyAt(j, titan, nums) == Ok(k)
          ensures Resolve(refs[j].location).UnknownType?
        {
          assert init[j] == refs[j];
          LocateKeepsFound(init, titan, nums, j);
        }
        assert FirstOfKey(refs, titan, nums, n, k, loc);
      } else {
        firsts := prev;
      }
    }
  }

  /** A loop over references of unknown types alone adds no entry. */
  lemma {:induction false} LocateUnknownOnly(refs: seq<RetrievedReference>, titan: bool, nums: seq<string>)
    requires Locate(refs, titan, nums).Ok?
    requires forall i :: 0 <= i < |refs| ==> refs[i].location.locType !in KnownTypes
    ensures Locate(refs, titan, nums).value == []
    decreases |refs|
  {
    if |refs| > 0 {
      LocateUnknownOnly(refs[..|refs| - 1], titan, nums);
    }
  }

  /** The loop raises only `IndexError`, at a key past the markers, or the
      `KeyError` of a reference whose location lacks its field. */
  lemma {:induction false} LocateCrashes(refs: seq<RetrievedReference>, titan: bool, nums: seq<string>)
    requires Locate(refs, titan, nums).Fail?
    ensures Locate(refs, titan, nums).crash == IndexError || Locate(refs, titan, nums).crash.KeyError?
    ensures (forall i :: 0 <= i < |refs| ==> !Resolve(refs[i].location).MissingField?) ==>
      Locate(refs, titan, nums).crash == IndexError
    decreases |refs|
  {
    var init := refs[..|refs| - 1];
    if Locate(init, titan, nums).Fail? {
      LocateCrashes(init, titan, nums);
      assert forall i :: 0 <= i < |init| ==> init[i] == refs[i];
    }
  }

  /** Titan mode fails when there are more references than collected
      markers: with `IndexError` at the first reference past them, unless an
      earlier reference's missing field raised `KeyError` first. */
  lemma LocateFailsWithoutMarker(refs: seq<RetrievedReference>, nums: seq<string>)
    requires |refs| > |nums|
    ensures Locate(refs, true, nums).Fail?
    ensures Locate(refs, true, nums).crash == IndexError || Locate(refs, true, nums).crash.KeyError?
  {
    if Locate(refs, true, nums).Ok? {
      LocateKeepsFound(refs, true, nums, |nums|);
    }
    LocateCrashes(refs, true, nums);
  }

  /** When no field is missing, more references than markers is exactly an
      `IndexError`. */
  lemma LocateIndexErrorWithoutMarker(refs: seq<RetrievedReference>, nums: seq<string>)
    requires |refs| > |nums|
    requires forall i :: 0 <= i < |refs| ==> !Resolve(refs[i].location).MissingField?
    ensures Locate(refs, true, nums) == Fail(IndexError)
  {
    LocateFailsWithoutMarker(refs, nums);
    LocateCrashes(refs, true, nums);
  }

  /** The loop runs to its end when every reference of a known type has its
      field and, in Titan mode, there is a marker for every reference. */
  lemma {:induction false} LocateSucceeds(refs: seq<RetrievedReference>, titan: bool, nums: seq<string>)
    requires titan ==> |refs| <= |nums|
    requires forall i :: 0 <= i < |refs| ==> !Resolve(refs[i].location).MissingField?
    ensures Locate(refs, titan, nums).Ok?
    decreases |refs|
  {
    if |refs| > 0 {
      var init := refs[..|refs| - 1];
      assert forall i :: 0 <= i < |init| ==> init[i] == refs[i];
      LocateSucceeds(init, titan, nums);
    }
  }

  /** When the collected markers are digit strings every key is a valid integer. */
  lemma {:induction false} LocateValidKeys(refs: seq<RetrievedReference>, titan: bool, nums: seq<string>)
    requires Locate(refs, titan, nums).Ok?
    requires forall k :: 0 <= k < |nums| ==> |nums[k]| > 0 && IsDigits(nums[k])
    ensures ValidKeys(Locate(refs, titan, nums).value)
    decreases |refs|
  {
    if |refs| > 0 {
      LocateValidKeys(refs[..|refs| - 1], titan, nums);
    }
  }

  // ---------------------------------------------------------------------
  // The loop itself
  // ---------------------------------------------------------------------

  /** The inner loop, over the references of one group: `done` are the
      references of the earlier groups, `start` counts them. */
  method CollectGroup(refs: seq<RetrievedReference>, start: nat, citationLocs: seq<Entry>, titan: bool, nums: seq<string>,
                      ghost done: seq<RetrievedReference>)
    returns (r: Result<seq<Entry>>)
    requires |done| == start && Locate(done, titan, nums) == Ok(citationLocs)
    ensures r == Locate(done + refs, titan, nums)
  {
    var i := start;
    var locs := citationLocs;
    var j := 0;
    assert done + refs[..0] == done;
    while j < |refs|
      invariant 0 <= j <= |refs|
      invariant i == start + j
      invariant Locate(done + refs[..j], titan, nums) == Ok(locs)
    {
      ghost var upTo := done + refs[..j + 1];
      assert upTo[..|upTo| - 1] == done + refs[..j];
      assert upTo[|upTo| - 1] == refs[j];
      assert Locate(upTo, titan, nums) == LocateStep(locs, i, refs[j], titan, nums);
      assert (done + refs)[..|upTo|] == upTo;
      var key: Key;
      if titan {
        if i >= |nums| {
          LocateFailurePersists(done + refs, |upTo|, titan, nums);
          return Fail(IndexError);
        }
        key := Tag(nums[i]);
      } else {
        key := Seq(i + 1);
      }
      if !HasKey(locs, key) {
        match Resolve(refs[j].location)
        case Found(loc) =>
          locs := locs + [Entry(key, loc)];
        case UnknownType(_) =>
          // the source logs "Unknown location type" and goes on
        case MissingField(f) =>
          LocateFailurePersists(done + refs, |upTo|, titan, nums);
          return Fail(KeyError(f));
      }
      i := i + 1;
      j := j + 1;
    }
    assert refs[..j] == refs;
    r := Ok(locs);
  }

  /** The nested loop over citation groups and their references, building
      `citation_locs` in place; the counter `i` runs across all groups. */
  method CollectLocations(groups: seq<CitationGroup>, titan: bool, nums: seq<string>) returns (r: Result<seq<Entry>>)
    ensures r == Locate(Flatten(groups), titan, nums)
  {
    var i := 0;
    var citationLocs: seq<Entry> := [];
    var g := 0;
    while g < |groups|
      invariant 0 <= g <= |groups|
      invariant i == |Flatten(groups[..g])|
      invariant Locate(Flatten(groups[..g]), titan, nums) == Ok(citationLocs)
    {
      var refs := groups[g].retrievedReferences;
      FlattenSnoc(groups, g);
      var step := CollectGroup(refs, i, citationLocs, titan, nums, Flatten(groups[..g]));
      if step.Fail? {
        FlattenPrefix(groups, g + 1);
        LocateFailurePersists(Flatten(groups), |Flatten(groups[..g + 1])|, titan, nums);
        return step;
      }
      citationLocs := step.value;
      i := i + |refs|;
      g := g + 1;
    }
    assert groups[..g] == groups;
    r := Ok(citationLocs);
  }

  /** The references of the first `g` groups are a prefix of all references. */
  lemma FlattenPrefix(groups: seq<CitationGroup>, g: nat)
    requires g <= |groups|
    ensures |Flatten(groups[..g])| <= |Flatten(groups)|
    ensures Flatten(groups)[..|Flatten(groups[..g])|] == Flatten(groups[..g])
  {
    assert groups == groups[..g] + groups[g..];
    FlattenAppend(groups[..g], groups[g..]);
  }

  // ---------------------------------------------------------------------
  // Ordering by integer key (app.py:170); Python's `sorted` is stable
  // ---------------------------------------------------------------------

  predicate ValidKeys(es: seq<Entry>) {
    forall p :: 0 <= p < |es| ==> ValidKey(es[p].key)
  }

  function Value(e: Entry): nat
    requires ValidKey(e.key)
  {
    KeyValue(e.key)
  }

  /** Insert `e` after every entry whose value is not larger. */
  function InsertByValue(e: Entry, s: seq<Entry>): (r: seq<Entry>)
    requires ValidKey(e.key) && ValidKeys(s)
    ensures ValidKeys(r)
  {
    if |s| == 0 then [e]
    else if Value(s[0]) <= Value(e) then [s[0]] + InsertByValue(e, s[1..])
    else [e] + s
  }

  /** `sorted(citation_locs.items(), key=lambda item: int(item[0]))`. */
  function SortByValue(s: seq<Entry>): (r: seq<Entry>)
    requires ValidKeys(s)
    ensures ValidKeys(r)
  {
    if |s| == 0 then [] else InsertByValue(s[|s| - 1], SortByValue(s[..|s| - 1]))
  }

  lemma {:induction false} InsertPermutes(e: Entry, s: seq<Entry>)
    requires ValidKey(e.key) && ValidKeys(s)
    ensures multiset(InsertByValue(e, s)) == multiset(s) + multiset{e}
    decreases |s|
  {
    if |s| > 0 && Value(s[0]) <= Value(e) {
      InsertPermutes(e, s[1..]);
      assert s == [s[0]] + s[1..];
    }
  }

  /** The sorted list holds the same entries. */
  lemma {:induction false} SortPermutes(s: seq<Entry>)
    requires ValidKeys(s)
    ensures multiset(SortByValue(s)) == multiset(s)
    decreases |s|
  {
    if |s| > 0 {
      SortPermutes(s[..|s| - 1]);
      InsertPermutes(s[|s| - 1], SortByValue(s[..|s| - 1]));
      assert s == s[..|s| - 1] + [s[|s| - 1]];
    }
  }

  ghost predicate SortedByValue(s: seq<Entry>)
    requires ValidKeys(s)
  {
    forall p, q :: 0 <= p < q < |s| ==> Value(s[p]) <= Value(s[q])
  }

  lemma {:induction false} InsertSorted(e: Entry, s: seq<Entry>)
    requires ValidKey(e.key) && ValidKeys(s) && SortedByValue(s)
    ensures SortedByValue(InsertByValue(e, s))
    decreases |s|
  {
    if |s| > 0 && Value(s[0]) <= Value(e) {
      InsertSorted(e, s[1..]);
      InsertPermutes(e, s[1..]);
      var t := InsertByValue(e, s[1..]);
      forall q | 0 <= q < |t| ensures Value(s[0]) <= Value(t[q]) {
        assert t[q] in multiset(t);
        assert t[q] in multiset(s[1..]) || t[q] == e;
      }
    }
  }

  lemma {:induction false} SortSorted(s: seq<Entry>)
    requires ValidKeys(s)
    ensures SortedByValue(SortByValue(s))
    decreases |s|
  {
    if |s| > 0 {
      SortSorted(s[..|s| - 1]);
      InsertSorted(s[|s| - 1], SortByValue(s[..|s| - 1]));
    }
  }

  /** The entries of one integer value, in order. */
  function WithValue(s: seq<Entry>, v: nat): seq<Entry>
    requires ValidKeys(s)
  {
    if |s| == 0 then []
    else (if Value(s[0]) == v then [s[0]] else []) + WithValue(s[1..], v)
  }

  lemma {:induction false} WithValueAppend(a: seq<Entry>, b: seq<Entry>, v: nat)
    requires ValidKeys(a) && ValidKeys(b)
    ensures WithValue(a + b, v) == WithValue(a, v) + WithValue(b, v)
    decreases |a|
  {
    if |a| > 0 {
      assert (a + b)[1..] == a[1..] + b;
      WithValueAppend(a[1..], b, v);
    } else {
      assert a + b == b;
    }
  }

  lemma {:induction false} WithValueNone(s: seq<Entry>, v: nat)
    requires ValidKeys(s)
    requires forall p :: 0 <= p < |s| ==> Value(s[p]) != v
    ensures WithValue(s, v) == []
    decreases |s|
  {
    if |s| > 0 {
      WithValueNone(s[1..], v);
    }
  }

  lemma {:induction false} InsertStable(e: Entry, s: seq<Entry>, v: nat)
    requires ValidKey(e.key) && ValidKeys(s) && SortedByValue(s)
    ensures WithValue(InsertByValue(e, s), v) == WithValue(s, v) + (if Value(e) == v then [e] else [])
    decreases |s|
  {
    if |s| > 0 {
      if Value(s[0]) <= Value(e) {
        SortedTail(s);
        InsertStable(e, s[1..], v);
        InsertStableAfter(e, s, v);
      } else {
        InsertStableBefore(e, s, v);
      }
    }
  }

  lemma SortedTail(s: seq<Entry>)
    requires ValidKeys(s) && |s| > 0 && SortedByValue(s)
    ensures SortedByValue(s[1..])
  {
    forall p, q | 0 <= p < q < |s| - 1 ensures Value(s[1..][p]) <= Value(s[1..][q]) {
      assert s[1..][p] == s[p + 1] && s[1..][q] == s[q + 1];
    }
  }

  lemma WithValueOne(e: Entry, v: nat)
    requires ValidKey(e.key)
    ensures WithValue([e], v) == if Value(e) == v then [e] else []
  {
    assert [e][1..] == [];
  }

  /** The step of `InsertStable` where `e` goes after the first entry. */
  lemma InsertStableAfter(e: Entry, s: seq<Entry>, v: nat)
    requires ValidKey(e.key) && ValidKeys(s) && |s| > 0 && Value(s[0]) <= Value(e)
    requires WithValue(InsertByValue(e, s[1..]), v) == WithValue(s[1..], v) + (if Value(e) == v then [e] else [])
    ensures WithValue(InsertByValue(e, s), v) == WithValue(s, v) + (if Value(e) == v then [e] else [])
  {
    var t := InsertByValue(e, s[1..]);
    assert InsertByValue(e, s) == [s[0]] + t;
    WithValueAppend([s[0]], t, v);
    WithValueOne(s[0], v);
    var x, y, z := WithValue([s[0]], v), WithValue(s[1..], v), if Value(e) == v then [e] else [];
    assert WithValue(s, v) == x + y;
    AppendAssoc(x, y, z);
  }

  /** The step of `InsertStable` where `e` goes in front: no entry of the
      sorted `s` has the value of a smaller `e`. */
  lemma InsertStableBefore(e: Entry, s: seq<Entry>, v: nat)
    requires ValidKey(e.key) && ValidKeys(s) && |s| > 0 && SortedByValue(s) && Value(e) < Value(s[0])
    ensures WithValue(InsertByValue(e, s), v) == WithValue(s, v) + (if Value(e) == v then [e] else [])
  {
    assert InsertByValue(e, s) == [e] + s;
    WithValueAppend([e], s, v);
    if Value(e) == v {
      assert forall p :: 0 <= p < |s| ==> Value(s[0]) <= Value(s[p]);
      WithValueNone(s, v);
    }
    WithValueOne(e, v);
  }

  lemma WithValueSnoc(s: seq<Entry>, v: nat)
    requires ValidKeys(s) && |s| > 0
    ensures WithValue(s, v) == WithValue(s[..|s| - 1], v) + (if Value(s[|s| - 1]) == v then [s[|s| - 1]] else [])
  {
    var init, last := s[..|s| - 1], s[|s| - 1];
    assert s == init + [last];
    WithValueAppend(init, [last], v);
    WithValueOne(last, v);
  }

  /** Entries with equal integer keys keep their insertion order. */
  lemma {:induction false} SortStable(s: seq<Entry>, v: nat)
    requires ValidKeys(s)
    ensures WithValue(SortByValue(s), v) == WithValue(s, v)
    decreases |s|
  {
    if |s| > 0 {
      var init, last := s[..|s| - 1], s[|s| - 1];
      SortStable(init, v);
      SortSorted(init);
      InsertStable(last, SortByValue(init), v);
      WithValueSnoc(s, v);
    }
  }

  /** Retrieval keys 5, 1 and 3 are listed as 1, 3, 5. */
  lemma SortExample(a: string, b: string, c: string)
    ensures SortByValue([Entry(Tag("5"), a), Entry(Tag("1"), b), Entry(Tag("3"), c)])
         == [Entry(Tag("1"), b), Entry(Tag("3"), c), Entry(Tag("5"), a)]
  {
    var e5, e1, e3 := Entry(Tag("5"), a), Entry(Tag("1"), b), Entry(Tag("3"), c);
    assert Value(e5) == 5 && Value(e1) == 1 && Value(e3) == 3;
    var s := [e5, e1, e3];
    assert s[..2][..1] == [e5];
    assert s[..2][..1][..0] == [];
    assert SortByValue([e5]) == [e5];
    assert SortByValue(s[..2]) == InsertByValue(e1, [e5]) == [e1, e5];
    assert InsertByValue(e3, [e5]) == [e3, e5];
    assert SortByValue(s) == InsertByValue(e3, [e1, e5]) == [e1, e3, e5];
  }

  // ---------------------------------------------------------------------
  // The trailing reference list (app.py:173-175)
  // ---------------------------------------------------------------------

  function ReferenceLine(e: Entry): string {
    "\n<br>[" + KeyText(e.key) + "] " + e.locator
  }

  function ReferenceLines(es: seq<Entry>): string {
    if |es| == 0 then "" else ReferenceLines(es[..|es| - 1]) + ReferenceLine(es[|es| - 1])
  }

  lemma {:induction false} ReferenceLinesAppend(a: seq<Entry>, b: seq<Entry>)
    ensures ReferenceLines(a + b) == ReferenceLines(a) + ReferenceLines(b)
    decreases |b|
  {
    if |b| == 0 {
      AppendEmpty(a, b);
    } else {
      var n := |b| - 1;
      AppendLast(a, b);
      ReferenceLinesAppend(a, b[..n]);
      var x, y, z := ReferenceLines(a), ReferenceLines(b[..n]), ReferenceLine(b[n]);
      assert ReferenceLines(a + b) == (x + y) + z;
      assert ReferenceLines(b) == y + z;
      AppendAssoc(x, y, z);
    }
  }

  /** The line of an entry comes after the lines of the entries before it
      and before the lines of the entries after it. */
  lemma ReferenceLinesSplit(es: seq<Entry>, p: nat)
    requires p < |es|
    ensures ReferenceLines(es) == ReferenceLines(es[..p]) + ReferenceLine(es[p]) + ReferenceLines(es[p + 1..])
  {
    SplitAround(es, p);
    ReferenceLinesAround(es[..p], es[p], es[p + 1..]);
  }

  lemma ReferenceLinesAround(a: seq<Entry>, e: Entry, b: seq<Entry>)
    ensures ReferenceLines(a + [e] + b) == ReferenceLines(a) + ReferenceLine(e) + ReferenceLines(b)
  {
    ReferenceLinesAppend(a + [e], b);
    ReferenceLinesAppend(a, [e]);
    ReferenceLinesOne(e);
  }

  lemma ReferenceLinesOne(e: Entry)
    ensures ReferenceLines([e]) == ReferenceLine(e)
  {
    var line := ReferenceLine(e);
    assert [e][..0] == [];
    assert ReferenceLines([e]) == ReferenceLines([]) + line;
  }

  /** `r` is `text`, a newline and one line per entry of `citationLocs`,
      listed in ascending integer key order, entries of equal value in
      their collected order. */
  ghost predicate ListsInKeyOrder(r: string, text: string, citationLocs: seq<Entry>) {
    && ValidKeys(citationLocs)
    && exists s :: && ValidKeys(s)
                  && multiset(s) == multiset(citationLocs)
                  && SortedByValue(s)
                  && (forall v: nat :: WithValue(s, v) == WithValue(citationLocs, v))
                  && r == text + "\n" + ReferenceLines(s)
  }

  /** Every value keeps its entries in order through the sort. */
  lemma SortStableAll(s: seq<Entry>)
    requires ValidKeys(s)
    ensures forall v: nat :: WithValue(SortByValue(s), v) == WithValue(s, v)
  {
    forall v: nat ensures WithValue(SortByValue(s), v) == WithValue(s, v) {
      SortStable(s, v);
    }
  }

  /** The answer with the reference list appended: a newline, then one
      `<br>[key] locator` line per entry in ascending integer key order. */
  function WithReferenceList(text: string, citationLocs: seq<Entry>): (r: string)
    requires ValidKeys(citationLocs)
    ensures |r| > |text| && r[..|text|] == text
    ensures ListsInKeyOrder(r, text, citationLocs)
  {
    var sorted := SortByValue(citationLocs);
    SortPermutes(citationLocs);
    SortSorted(citationLocs);
    SortStableAll(citationLocs);
    text + "\n" + ReferenceLines(sorted)
  }

  /** The loop that builds the trailing list: `output_text += "\n"`, then one
      `f"\n<br>[{citation_num}] {citation_loc}"` per entry, in the given order. */
  method AppendReferenceList(text: string, sortedLocs: seq<Entry>) returns (r: string)
    ensures r == text + "\n" + ReferenceLines(sortedLocs)
  {
    r := text + "\n";
    var k := 0;
    while k < |sortedLocs|
      invariant 0 <= k <= |sortedLocs|
      invariant r == text + "\n" + ReferenceLines(sortedLocs[..k])
    {
      PrefixSnoc(sortedLocs, k);
      AppendAssoc(text + "\n", ReferenceLines(sortedLocs[..k]), ReferenceLine(sortedLocs[k]));
      r := r + ReferenceLine(sortedLocs[k]);
      k := k + 1;
    }
    assert sortedLocs[..k] == sortedLocs;
  }
}
