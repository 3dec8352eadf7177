/**
 How a relink is cut into bounded statements: ranges that start at every K-th finding id for a full relink,
 slices of the affected ids for a targeted one.
 */
module PassportScopes {
  import opened Wrappers
  import Sets
  import opened PassportMatching
  import opened PassportLinks

  const CHUNK_FINDINGS: nat := 5000
  const FULL_CHUNK_FINDINGS: nat := 10000
  const TARGETED_MAX_PASSPORTS: nat := 20000

  /** The condition of one statement on the findings it relinks. */
  datatype Scope = OfAsset(asset: string) | Between(low: int, high: int) | From(low: int) | Among(ids: seq<int>)

  predicate InScope(s: Scope, id: int, f: Finding) {
    match s
    case OfAsset(asset) => f.asset == asset
    case Between(low, high) => low <= id < high
    case From(low) => low <= id
    case Among(ids) => id in ids
  }

  function Members(s: Scope, findings: Findings): set<int> {
    set id | id in findings && InScope(s, id, findings[id])
  }

  // ---- Ids in order ----

  predicate Increasing(ids: seq<int>) {
    forall i, j :: 0 <= i < j < |ids| ==> ids[i] < ids[j]
  }

  function Elements<T(==)>(ids: seq<T>): set<T> {
    set id | id in ids
  }

  lemma {:induction false} LowestExists(ids: set<int>) returns (lowest: int)
    requires ids != {}
    ensures lowest in ids && forall id :: id in ids ==> lowest <= id
    decreases ids
  {
    Sets.HasElement(ids);
    var x :| x in ids;
    if ids == {x} {
      lowest := x;
    } else {
      assert ids == (ids - {x}) + {x};
      var y := LowestExists(ids - {x});
      lowest := if x < y then x else y;
    }
  }

  function Lowest(ids: set<int>): (lowest: int)
    requires ids != {}
    ensures lowest in ids && forall id :: id in ids ==> lowest <= id
  {
    assert exists lowest :: lowest in ids && forall id :: id in ids ==> lowest <= id by {
      var lowest := LowestExists(ids);
    }
    var lowest :| lowest in ids && forall id :: id in ids ==> lowest <= id;
    lowest
  }

  /** ORDER BY id. */
  function SortedIds(ids: set<int>): (sorted: seq<int>)
    ensures Increasing(sorted) && Elements(sorted) == ids
    decreases ids
  {
    if ids == {} then []
    else
      var lowest := Lowest(ids);
      var rest := SortedIds(ids - {lowest});
      assert Elements([lowest] + rest) == {lowest} + Elements(rest);
      [lowest] + rest
  }

  // ---- Slices ----

  function Rest(ids: seq<int>, k: nat): seq<int> {
    if |ids| <= k then [] else ids[k..]
  }

  function First(ids: seq<int>, k: nat): seq<int> {
    if |ids| <= k then ids else ids[..k]
  }

  /** Slices of `k` ids; the last may be shorter. */
  function Slices(ids: seq<int>, k: nat): (slices: seq<seq<int>>)
    requires k > 0
    ensures forall slice :: slice in slices ==> 0 < |slice| <= k
    decreases |ids|
  {
    if ids == [] then [] else [First(ids, k)] + Slices(Rest(ids, k), k)
  }

  lemma FirstIsLowest(ids: seq<int>)
    requires Increasing(ids)
    ensures forall id :: id in ids ==> ids[0] <= id
  {
  }

  /** The ids of the first slice come before those of the others. */
  lemma FirstBeforeRest(ids: seq<int>, k: nat)
    requires Increasing(ids)
    ensures ids == First(ids, k) + Rest(ids, k) && Increasing(Rest(ids, k))
    ensures Rest(ids, k) != [] ==> forall id :: id in First(ids, k) ==> id < Rest(ids, k)[0]
  {
  }

  ghost predicate InSomeSlice(slices: seq<seq<int>>, id: int) {
    exists i :: 0 <= i < |slices| && id in slices[i]
  }

  /** The slices hold the ids and nothing else. */
  lemma {:induction false} SlicesCover(ids: seq<int>, k: nat, id: int)
    requires k > 0 && Increasing(ids)
    ensures id in ids <==> InSomeSlice(Slices(ids, k), id)
    decreases |ids|
  {
    hide Increasing;
    if ids != [] {
      FirstBeforeRest(ids, k);
      SlicesCover(Rest(ids, k), k, id);
      var all, rest := Slices(ids, k), Slices(Rest(ids, k), k);
      assert all == [First(ids, k)] + rest;
      assert id in ids <==> id in First(ids, k) || id in Rest(ids, k);
      if InSomeSlice(rest, id) {
        var i :| 0 <= i < |rest| && id in rest[i];
        assert all[i + 1] == rest[i];
      }
      assert all[0] == First(ids, k);
    }
  }

  /** No id is in two slices. */
  lemma {:induction false} SlicesDisjoint(ids: seq<int>, k: nat, i: nat, j: nat, id: int)
    requires k > 0 && Increasing(ids) && i < j < |Slices(ids, k)| && id in Slices(ids, k)[i]
    ensures id !in Slices(ids, k)[j]
    decreases |ids|
  {
    hide Increasing;
    hide First;
    hide Rest;
    var rest := Rest(ids, k);
    FirstBeforeRest(ids, k);
    assert Slices(ids, k) == [First(ids, k)] + Slices(rest, k);
    assert Slices(ids, k)[j] == Slices(rest, k)[j - 1];
    if i == 0 {
      if id in Slices(rest, k)[j - 1] {
        SlicesCover(rest, k, id);
        FirstIsLowest(rest);
      }
    } else {
      assert Slices(ids, k)[i] == Slices(rest, k)[i - 1];
      SlicesDisjoint(rest, k, i - 1, j - 1, id);
    }
  }

  // ---- Ranges ----

  /** The ids at positions 0, K, 2K, ... */
  function Starts(ids: seq<int>, k: nat): seq<int>
    requires k > 0
    decreases |ids|
  {
    if ids == [] then [] else [ids[0]] + Starts(Rest(ids, k), k)
  }

  lemma {:induction false} StartsAreEveryKth(ids: seq<int>, k: nat, i: nat)
    requires k > 0 && i < |Starts(ids, k)|
    ensures i * k < |ids| && Starts(ids, k)[i] == ids[i * k]
    decreases |ids|
  {
    hide Starts;
    hide Rest;
    if i == 0 {
      FirstStart(ids, k);
    } else {
      LaterStart(ids, k, i);
      StartsAreEveryKth(Rest(ids, k), k, i - 1);
      OneSliceOn(i, k);
      RestAt(ids, k, (i - 1) * k);
    }
  }

  lemma FirstStart(ids: seq<int>, k: nat)
    requires k > 0 && Starts(ids, k) != []
    ensures ids != [] && Starts(ids, k)[0] == ids[0]
  {
  }

  lemma LaterStart(ids: seq<int>, k: nat, i: nat)
    requires k > 0 && 0 < i < |Starts(ids, k)|
    ensures |Rest(ids, k)| < |ids| && i - 1 < |Starts(Rest(ids, k), k)|
    ensures Starts(ids, k)[i] == Starts(Rest(ids, k), k)[i - 1]
  {
  }

  lemma OneSliceOn(i: nat, k: nat)
    requires i > 0
    ensures 0 <= (i - 1) * k && (i - 1) * k + k == i * k
  {
  }

  lemma RestAt(ids: seq<int>, k: nat, m: nat)
    requires m < |Rest(ids, k)|
    ensures m + k < |ids| && Rest(ids, k)[m] == ids[m + k]
  {
  }

  /** From each start to the next, and from the last one on. */
  function Ranges(starts: seq<int>): (ranges: seq<Scope>)
    ensures |ranges| == |starts|
  {
    if starts == [] then []
    else if |starts| == 1 then [From(starts[0])]
    else [Between(starts[0], starts[1])] + Ranges(starts[1..])
  }

  predicate InRange(s: Scope, id: int) {
    match s
    case Between(low, high) => low <= id < high
    case From(low) => low <= id
    case _ => false
  }

  /** The ranges cut the ids exactly as slices would. */
  lemma {:induction false} RangesAreSlices(ids: seq<int>, k: nat)
    requires k > 0 && Increasing(ids)
    ensures |Starts(ids, k)| == |Slices(ids, k)|
    ensures forall i :: 0 <= i < |Slices(ids, k)| ==> StartsAt(Ranges(Starts(ids, k))[i], ids)
    ensures forall i, id :: 0 <= i < |Slices(ids, k)| && id in ids ==>
      (InRange(Ranges(Starts(ids, k))[i], id) <==> id in Slices(ids, k)[i])
    decreases |ids|
  {
    if ids != [] {
      var rest := Rest(ids, k);
      FirstBeforeRest(ids, k);
      FirstIsLowest(ids);
      RangesAreSlices(rest, k);
      RangesUnfold(ids, k);
      forall i, id | 0 <= i < |Slices(ids, k)| && id in ids
        ensures InRange(Ranges(Starts(ids, k))[i], id) <==> id in Slices(ids, k)[i]
      {
        if i == 0 {
          FirstRange(ids, k, id);
        } else {
          LaterRange(ids, k, i, id);
        }
      }
      assert rest != [] ==> rest[0] in rest && rest[0] in First(ids, k) + rest;
    }
  }

  lemma LaterRange(ids: seq<int>, k: nat, i: nat, id: int)
    requires k > 0 && Increasing(ids) && id in ids && 0 < i < |Slices(ids, k)|
    requires |Starts(Rest(ids, k), k)| == |Slices(Rest(ids, k), k)|
    requires StartsAt(Ranges(Starts(Rest(ids, k), k))[i - 1], Rest(ids, k))
    requires id in Rest(ids, k) ==>
      (InRange(Ranges(Starts(Rest(ids, k), k))[i - 1], id) <==> id in Slices(Rest(ids, k), k)[i - 1])
    ensures |Starts(ids, k)| == |Slices(ids, k)|
    ensures InRange(Ranges(Starts(ids, k))[i], id) <==> id in Slices(ids, k)[i]
  {
    hide First;
    hide Rest;
    hide Slices;
    hide Starts;
    hide Ranges;
    hide Increasing;
    var rest := Rest(ids, k);
    FirstBeforeRest(ids, k);
    SlicesUnfold(ids, k, i);
    RangesUnfold(ids, k);
    assert Ranges(Starts(ids, k))[i] == Ranges(Starts(ids, k))[1..][i - 1];
    if id !in rest {
      SlicesCover(rest, k, id);
      assert id in First(ids, k);
      NotEmptyWithSlices(rest, k);
    }
  }

  lemma SlicesUnfold(ids: seq<int>, k: nat, i: nat)
    requires k > 0 && 0 < i < |Slices(ids, k)|
    requires |Starts(Rest(ids, k), k)| == |Slices(Rest(ids, k), k)|
    ensures |Starts(ids, k)| == |Slices(ids, k)| && i - 1 < |Slices(Rest(ids, k), k)|
    ensures Slices(ids, k)[i] == Slices(Rest(ids, k), k)[i - 1]
  {
  }

  lemma NotEmptyWithSlices(ids: seq<int>, k: nat)
    requires k > 0 && Slices(ids, k) != []
    ensures ids != []
  {
  }

  predicate StartsAt(range: Scope, ids: seq<int>) {
    (range.Between? || range.From?) && (ids != [] ==> ids[0] <= range.low)
  }

  lemma RangesUnfold(ids: seq<int>, k: nat)
    requires k > 0 && ids != []
    ensures var rest, ranges := Rest(ids, k), Ranges(Starts(ids, k));
      && ranges != [] && ranges[1..] == Ranges(Starts(rest, k))
      && ranges[0] == if rest == [] then From(ids[0]) else Between(ids[0], rest[0])
  {
  }

  /** The first range holds the first slice and nothing of the others. */
  lemma FirstRange(ids: seq<int>, k: nat, id: int)
    requires k > 0 && Increasing(ids) && id in ids
    ensures InRange(Ranges(Starts(ids, k))[0], id) <==> id in First(ids, k)
  {
  }

  // ---- Scopes ----

  /** Which findings a call relinks: an asset's, all of them, or those the given passports can affect. */
  function Reach(
    cat: Catalog, findings: Findings, links: Links, ids: Option<seq<string>>, asset: Option<string>): set<int>
  {
    if asset.Some? then set id | id in findings && findings[id].asset == asset.value
    else if ids.None? || |ids.value| > TARGETED_MAX_PASSPORTS then findings.Keys
    else AffectedSet(cat, findings, links, set p | p in ids.value)
  }

  function AmongAll(slices: seq<seq<int>>): (scopes: seq<Scope>)
    ensures |scopes| == |slices| && forall i :: 0 <= i < |slices| ==> scopes[i] == Among(slices[i])
  {
    seq(|slices|, i requires 0 <= i < |slices| => Among(slices[i]))
  }

  function LinkScopes(
    cat: Catalog, findings: Findings, links: Links, ids: Option<seq<string>>, asset: Option<string>): seq<Scope>
  {
    if asset.Some? then [OfAsset(asset.value)]
    else if ids.None? || |ids.value| > TARGETED_MAX_PASSPORTS then
      Ranges(Starts(SortedIds(findings.Keys), FULL_CHUNK_FINDINGS))
    else if ids.value == [] then []
    else AmongAll(Slices(SortedIds(AffectedSet(cat, findings, links, set p | p in ids.value)), CHUNK_FINDINGS))
  }

  lemma {:induction false} ElementsBound(ids: seq<int>)
    ensures |Elements(ids)| <= |ids|
  {
    if ids != [] {
      ElementsBound(ids[1..]);
      assert Elements(ids) == Elements(ids[1..]) + {ids[0]};
    }
  }

  /** Scopes whose members are the slices of some sorted ids. */
  lemma SlicedScopes(scopes: seq<Scope>, findings: Findings, ids: seq<int>, k: nat)
    requires k > 0 && Increasing(ids)
    requires |scopes| == |Slices(ids, k)|
    requires forall i :: 0 <= i < |scopes| ==> Members(scopes[i], findings) == Elements(Slices(ids, k)[i])
    ensures Partition(scopes, findings, Elements(ids))
    ensures forall i :: 0 <= i < |scopes| ==> |Members(scopes[i], findings)| <= k
  {
    forall i, j, id | 0 <= i < j < |scopes| && id in Slices(ids, k)[i]
      ensures id !in Slices(ids, k)[j]
    {
      SlicesDisjoint(ids, k, i, j, id);
    }
    forall i | 0 <= i < |scopes|
      ensures |Members(scopes[i], findings)| <= k
    {
      ElementsBound(Slices(ids, k)[i]);
      assert Slices(ids, k)[i] in Slices(ids, k);
    }
    forall id
      ensures id in ids <==> exists i :: 0 <= i < |scopes| && id in Members(scopes[i], findings)
    {
      SlicesCover(ids, k, id);
      assert forall i :: 0 <= i < |scopes| ==> (id in Slices(ids, k)[i] <==> id in Members(scopes[i], findings));
    }
  }

  /** Every finding in reach is in exactly one scope, and no other finding is in any. */
  ghost predicate Partition(scopes: seq<Scope>, findings: Findings, reach: set<int>) {
    && (forall id :: id in reach <==> exists i :: 0 <= i < |scopes| && id in Members(scopes[i], findings))
    && (forall i, j :: 0 <= i < j < |scopes| ==> Members(scopes[i], findings) !! Members(scopes[j], findings))
  }

  lemma NothingAffected(cat: Catalog, findings: Findings, links: Links)
    ensures AffectedSet(cat, findings, links, {}) == {}
  {
  }

  /**
   The scopes of a call partition the findings in its reach; no statement relinks more than a chunk, unless
   the call is for one asset.
   */
  lemma ScopesPartition(cat: Catalog, findings: Findings, links: Links, ids: Option<seq<string>>, asset: Option<string>)
    ensures var scopes := LinkScopes(cat, findings, links, ids, asset);
      && Partition(scopes, findings, Reach(cat, findings, links, ids, asset))
      && (asset.None? ==> forall i :: 0 <= i < |scopes| ==>
            |Members(scopes[i], findings)| <= (if scopes[i].Among? then CHUNK_FINDINGS else FULL_CHUNK_FINDINGS))
  {
    hide Slices;
    hide Starts;
    hide Ranges;
    hide Affected;
    hide SortedIds;
    hide Members;
    hide Partition;
    var scopes := LinkScopes(cat, findings, links, ids, asset);
    if asset.Some? {
      OnePartition(findings, asset.value);
    } else if ids.None? || |ids.value| > TARGETED_MAX_PASSPORTS {
      AllPartition(findings, FULL_CHUNK_FINDINGS);
    } else if ids.value == [] {
      NothingAffected(cat, findings, links);
      assert (set p | p in ids.value) == {};
      EmptyPartition(findings);
    } else {
      AmongPartition(findings, AffectedSet(cat, findings, links, set p | p in ids.value), CHUNK_FINDINGS);
    }
  }

  lemma OnePartition(findings: Findings, asset: string)
    ensures Partition([OfAsset(asset)], findings, set id | id in findings && findings[id].asset == asset)
  {
    assert Members([OfAsset(asset)][0], findings) == set id | id in findings && findings[id].asset == asset;
  }

  lemma EmptyPartition(findings: Findings)
    ensures Partition([], findings, {})
  {
  }

  /** All findings, cut into ranges. */
  lemma AllPartition(findings: Findings, k: nat)
    requires k > 0
    ensures var scopes := Ranges(Starts(SortedIds(findings.Keys), k));
      && Partition(scopes, findings, findings.Keys)
      && forall i :: 0 <= i < |scopes| ==> |Members(scopes[i], findings)| <= k && !scopes[i].Among?
  {
    hide Slices;
    hide Starts;
    hide SortedIds;
    hide Partition;
    hide Members;
    var sorted := SortedIds(findings.Keys);
    RangesAreSlices(sorted, k);
    RangeMembers(findings, sorted, k);
    RangesAreNoLists(Starts(sorted, k));
    SlicedScopes(Ranges(Starts(sorted, k)), findings, sorted, k);
  }

  lemma RangesAreNoLists(starts: seq<int>)
    ensures forall i :: 0 <= i < |starts| ==> !Ranges(starts)[i].Among?
  {
  }

  /** Any findings, sorted and cut into chunks. */
  lemma AmongPartition(findings: Findings, reach: set<int>, k: nat)
    requires k > 0 && reach <= findings.Keys
    ensures var scopes := AmongAll(Slices(SortedIds(reach), k));
      && Partition(scopes, findings, reach)
      && forall i :: 0 <= i < |scopes| ==> |Members(scopes[i], findings)| <= k
  {
    hide Slices;
    hide SortedIds;
    hide Partition;
    hide Members;
    var sorted := SortedIds(reach);
    AmongMembers(findings, sorted, k);
    SlicedScopes(AmongAll(Slices(sorted, k)), findings, sorted, k);
  }

  lemma RangeMembers(findings: Findings, sorted: seq<int>, k: nat)
    requires k > 0 && Increasing(sorted) && Elements(sorted) == findings.Keys
    ensures |Starts(sorted, k)| == |Slices(sorted, k)|
    ensures forall i :: 0 <= i < |Slices(sorted, k)| ==>
      Members(Ranges(Starts(sorted, k))[i], findings) == Elements(Slices(sorted, k)[i])
  {
    RangesAreSlices(sorted, k);
    forall i, id | 0 <= i < |Slices(sorted, k)| && id in Slices(sorted, k)[i]
      ensures id in sorted && id in Elements(sorted)
    {
      SlicesCover(sorted, k, id);
    }
    assert forall id :: id in findings <==> id in Elements(sorted);
  }

  lemma AmongMembers(findings: Findings, sorted: seq<int>, k: nat)
    requires k > 0 && Increasing(sorted) && Elements(sorted) <= findings.Keys
    ensures forall i :: 0 <= i < |Slices(sorted, k)| ==>
      Members(Among(Slices(sorted, k)[i]), findings) == Elements(Slices(sorted, k)[i])
  {
  }
}
