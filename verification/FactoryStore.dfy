/** The lifecycle store: one document of immutable records per run, loaded as lists in the order of their ids. */
module FactoryStore {
  import opened Collections
  import opened FactoryLifecycle
  import opened Sorting

  /** The records under the given ids. */
  ghost function Values<T>(section: map<string, T>, ids: seq<string>): (r: seq<T>)
    requires forall i :: 0 <= i < |ids| ==> ids[i] in section
    ensures |r| == |ids| && forall i :: 0 <= i < |ids| ==> r[i] == section[ids[i]]
  {
    if ids == [] then [] else Values(section, ids[..|ids| - 1]) + [section[ids[|ids| - 1]]]
  }

  /** The ids of a section, in order. */
  function SortedIds<T>(section: map<string, T>): (ids: seq<string>)
    ensures forall i :: 0 <= i < |ids| ==> ids[i] in section
    ensures Distinct(ids) && Sorted(ids, StrLe)
    ensures forall id :: id in section ==> id in ids
  {
    var ids := SortedSet(section.Keys);
    assert forall i :: 0 <= i < |ids| ==> ids[i] in ToSet(ids);
    assert forall id :: id in section ==> id in ToSet(ids);
    ids
  }

  /** The records of a section, in the order of their ids. */
  ghost function Listed<T>(section: map<string, T>): seq<T> {
    Values(section, SortedIds(section))
  }

  lemma ListedMembers<T>(section: map<string, T>)
    ensures forall x :: x in Listed(section) <==> exists id :: id in section && section[id] == x
  {
    var ids := SortedIds(section);
    forall x | x in Listed(section) ensures exists id :: id in section && section[id] == x {
      var i :| 0 <= i < |ids| && Listed(section)[i] == x;
      assert ids[i] in section;
    }
    forall id | id in section ensures section[id] in Listed(section) {
      var i :| 0 <= i < |ids| && ids[i] == id;
      assert Listed(section)[i] == section[id];
    }
  }

  lemma NextValue<T>(section: map<string, T>, ids: seq<string>, i: nat)
    requires i < |ids| && forall k :: 0 <= k < |ids| ==> ids[k] in section
    ensures Values(section, ids[..i + 1]) == Values(section, ids[..i]) + [section[ids[i]]]
  {
    assert ids[..i + 1][..i] == ids[..i];
  }

  /** `_record` refuses to replace a record by a different one. */
  predicate Refuses<T(==)>(section: map<string, T>, id: string, x: T) {
    id in section && section[id] != x
  }

  /** Loading a section: its values by sorted id. */
  method LoadSection<T(==)>(section: map<string, T>) returns (r: seq<T>)
    ensures r == Listed(section)
  {
    var ids := SortedIds(section);
    r := [];
    for i := 0 to |ids|
      invariant r == Values(section, ids[..i])
    {
      NextValue(section, ids, i);
      r := r + [section[ids[i]]];
    }
    assert ids[..|ids|] == ids;
  }

  class FactoryLifecycleStore {
    var approvals: map<string, Approval>
    var reviews: map<string, Review>
    var unmet: map<string, string>
    var handoff: Option<Handoff>

    constructor ()
      ensures approvals == map[] && reviews == map[] && unmet == map[] && handoff == None
    {
      approvals, reviews, unmet, handoff := map[], map[], map[], None;
    }

    /** A record once written under an id stays: a different one is refused, the same one is accepted silently. */
    method RecordApproval(d: Approval) returns (ok: bool)
      modifies this`approvals
      ensures ok <==> !Refuses(old(approvals), d.id, d)
      ensures approvals == if ok then old(approvals)[d.id := d] else old(approvals)
    {
      if d.id in approvals {
        assert approvals[d.id] == d ==> approvals == approvals[d.id := d];
        return approvals[d.id] == d;
      }
      approvals := approvals[d.id := d];
      ok := true;
    }

    method RecordReview(d: Review) returns (ok: bool)
      modifies this`reviews
      ensures ok <==> !Refuses(old(reviews), d.id, d)
      ensures reviews == if ok then old(reviews)[d.id := d] else old(reviews)
    {
      if d.id in reviews {
        assert reviews[d.id] == d ==> reviews == reviews[d.id := d];
        return reviews[d.id] == d;
      }
      reviews := reviews[d.id := d];
      ok := true;
    }

    method RecordUnmet(item: Unmet) returns (ok: bool)
      modifies this`unmet
      ensures ok <==> !Refuses(old(unmet), item.id, item.content)
      ensures unmet == if ok then old(unmet)[item.id := item.content] else old(unmet)
    {
      if item.id in unmet {
        assert unmet[item.id] == item.content ==> unmet == unmet[item.id := item.content];
        return unmet[item.id] == item.content;
      }
      unmet := unmet[item.id := item.content];
      ok := true;
    }

    method RecordHandoff(h: Handoff) returns (ok: bool)
      modifies this`handoff
      ensures ok <==> old(handoff).None? || old(handoff) == Some(h)
      ensures handoff == if ok then Some(h) else old(handoff)
    {
      if handoff.Some? {
        return handoff.value == h;
      }
      handoff := Some(h);
      ok := true;
    }
  }
}
