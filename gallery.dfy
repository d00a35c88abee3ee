/**
 * The panorama list (`this.panoramas`) and the gallery that mirrors it: one
 * entry per record, in list order, at most one of them marked active.
 */
module Gallery {
  import opened Wrappers

  /** Presets carry string keys ('p1' ...); uploads a `Date.now() + Math.random()` stamp. */
  datatype Id = PresetId(key: string) | UploadId(stamp: real)

  /** The record's `type`: 'default' for presets, 'user' for uploads. */
  datatype Kind = Default | User

  datatype Panorama = Panorama(id: Id, name: string, url: string, kind: Kind, size: Option<nat>, dimensions: string)

  function Ids(ps: seq<Panorama>): (ids: seq<Id>)
    ensures |ids| == |ps| && forall i :: 0 <= i < |ps| ==> ids[i] == ps[i].id
  {
    seq(|ps|, i requires 0 <= i < |ps| => ps[i].id)
  }

  predicate UniqueIds(ps: seq<Panorama>) {
    forall i, j :: 0 <= i < j < |ps| ==> ps[i].id != ps[j].id
  }

  lemma IdsAppend(ps: seq<Panorama>, p: Panorama)
    ensures Ids(ps + [p]) == Ids(ps) + [p.id]
  {
    assert forall i :: 0 <= i < |ps| + 1 ==> Ids(ps + [p])[i] == (Ids(ps) + [p.id])[i];
  }

  /** Appending a record whose id is not yet listed keeps the ids unique. */
  lemma AppendFresh(ps: seq<Panorama>, p: Panorama)
    requires UniqueIds(ps) && p.id !in Ids(ps)
    ensures UniqueIds(ps + [p]) && Ids(ps + [p]) == Ids(ps) + [p.id]
  {
    IdsAppend(ps, p);
    forall i | 0 <= i < |ps|
      ensures (ps + [p])[i].id != p.id
    {
      assert Ids(ps)[i] == ps[i].id;
    }
  }

  /** Ids handed out for new uploads: pairwise distinct and not yet in the list. */
  predicate FreshIds(ps: seq<Panorama>, ids: seq<Id>) {
    (forall i, j :: 0 <= i < j < |ids| ==> ids[i] != ids[j])
    && forall i :: 0 <= i < |ids| ==> ids[i] !in Ids(ps)
  }

  /** Handing out the first fresh id to a new record leaves the rest fresh. */
  lemma FreshIdsStep(ps: seq<Panorama>, p: Panorama, ids: seq<Id>)
    requires FreshIds(ps, ids) && |ids| > 0 && p.id == ids[0]
    ensures p.id !in Ids(ps)
    ensures FreshIds(ps + [p], ids[1..])
  {
    IdsAppend(ps, p);
    forall i | 0 <= i < |ids| - 1
      ensures ids[1..][i] !in Ids(ps + [p])
    {
      assert ids[1..][i] == ids[i + 1] != ids[0];
    }
  }

  function Preset(key: string, name: string, url: string): Panorama {
    Panorama(PresetId(key), name, url, Default, None, "")
  }

  /** The six bundled panoramas loaded at start-up. */
  function PresetCatalog(): (ps: seq<Panorama>)
    ensures |ps| == 6 && UniqueIds(ps)
    ensures forall i :: 0 <= i < |ps| ==> ps[i].kind == Default && ps[i].id.PresetId? && ps[i].dimensions == ""
  {
    [ Preset("p1", "Панорама 1", "panoramas/p1.jpg"),
      Preset("p2", "Панорама 2", "panoramas/p2.jpg"),
      Preset("p3", "Панорама 3", "panoramas/p3.jpg"),
      Preset("p4", "Панорама 4", "panoramas/p4.jpg"),
      Preset("p5", "Панорама 5", "panoramas/p5.jpg"),
      Preset("p6", "Панорама 6", "panoramas/p6.jpeg") ]
  }

  /** `panoramas.findIndex(p => p.id === id)`: the first position holding `id`, or -1. */
  function FindIndex(ps: seq<Panorama>, id: Id): (k: int)
    ensures -1 <= k < |ps|
    ensures 0 <= k ==> ps[k].id == id
  {
    if ps == [] then -1
    else if ps[0].id == id then 0
    else
      var k := FindIndex(ps[1..], id);
      if k < 0 then -1 else k + 1
  }

  /** FindIndex reports the first record holding the id. */
  lemma {:induction false} FindIndexFirst(ps: seq<Panorama>, id: Id, j: nat)
    requires j < FindIndex(ps, id)
    ensures ps[j].id != id
  {
    if j > 0 {
      FindIndexFirst(ps[1..], id, j - 1);
    }
  }

  /** FindIndex reports -1 exactly when no record holds the id. */
  lemma {:induction false} FindIndexAbsent(ps: seq<Panorama>, id: Id)
    ensures FindIndex(ps, id) == -1 <==> id !in Ids(ps)
  {
    if ps != [] {
      assert Ids(ps) == [ps[0].id] + Ids(ps[1..]);
      FindIndexAbsent(ps[1..], id);
    }
  }

  /** `deletePanorama`'s list effect: splice out the record found by FindIndex, if any. */
  function Removed(ps: seq<Panorama>, id: Id): (r: seq<Panorama>)
    ensures |r| <= |ps| && forall q :: q in r ==> q in ps
  {
    var k := FindIndex(ps, id);
    if k < 0 then ps
    else
      assert forall q :: q in ps[..k] + ps[k + 1..] ==> q in ps[..k] || q in ps[k + 1..];
      ps[..k] + ps[k + 1..]
  }

  /** Reference definition: the list with every record holding `id` filtered out. */
  function Without(ps: seq<Panorama>, id: Id): seq<Panorama> {
    if ps == [] then []
    else if ps[0].id == id then Without(ps[1..], id)
    else [ps[0]] + Without(ps[1..], id)
  }

  lemma {:induction false} WithoutAbsent(ps: seq<Panorama>, id: Id)
    requires forall i :: 0 <= i < |ps| ==> ps[i].id != id
    ensures Without(ps, id) == ps
  {
    if ps != [] {
      WithoutAbsent(ps[1..], id);
    }
  }

  /** Splicing past a head that does not hold the id keeps that head in front. */
  lemma RemovedCons(ps: seq<Panorama>, id: Id)
    requires ps != [] && ps[0].id != id
    ensures Removed(ps, id) == [ps[0]] + Removed(ps[1..], id)
  {
    var k := FindIndex(ps[1..], id);
    if k >= 0 {
      assert FindIndex(ps, id) == k + 1;
      SpliceCons(ps, k);
    } else {
      assert FindIndex(ps, id) == -1;
      ConsTail(ps);
    }
  }

  lemma ConsTail<T>(s: seq<T>)
    requires s != []
    ensures [s[0]] + s[1..] == s
  {
  }

  /** Splicing out position k shifts every later element down by one. */
  lemma SpliceAt<T>(s: seq<T>, k: nat)
    requires k < |s|
    ensures |s[..k] + s[k + 1..]| == |s| - 1
    ensures forall i :: 0 <= i < |s| - 1 ==> (s[..k] + s[k + 1..])[i] == (if i < k then s[i] else s[i + 1])
  {
  }

  /** Splicing out position k + 1 of a sequence is splicing out position k of its tail. */
  lemma SpliceCons<T>(s: seq<T>, k: nat)
    requires k + 1 < |s|
    ensures s[..k + 1] + s[k + 2..] == [s[0]] + (s[1..][..k] + s[1..][k + 1..])
  {
    assert s[..k + 1] == [s[0]] + s[1..][..k];
    assert s[k + 2..] == s[1..][k + 1..];
  }

  /**
   * With unique ids, splicing at the found index removes exactly the record
   * with that id and keeps every other record in its original order.
   */
  lemma {:induction false} RemovedIsWithout(ps: seq<Panorama>, id: Id)
    requires UniqueIds(ps)
    ensures Removed(ps, id) == Without(ps, id)
  {
    if ps == [] {
    } else if ps[0].id == id {
      WithoutAbsent(ps[1..], id);
    } else {
      RemovedCons(ps, id);
      RemovedIsWithout(ps[1..], id);
    }
  }

  /** Deleting keeps ids unique, drops `id`, shrinks the list by one exactly when `id` was present, and keeps every other id. */
  lemma RemovedShape(ps: seq<Panorama>, id: Id)
    requires UniqueIds(ps)
    ensures var r := Removed(ps, id);
      UniqueIds(r) && id !in Ids(r)
      && |r| == (if id in Ids(ps) then |ps| - 1 else |ps|)
      && forall x :: x in Ids(ps) && x != id ==> x in Ids(r)
  {
    var r := Removed(ps, id);
    var k := FindIndex(ps, id);
    FindIndexAbsent(ps, id);
    if k >= 0 {
      RemovedAt(ps, id);
      forall i | 0 <= i < |r|
        ensures Ids(r)[i] != id
      {
        var i' := if i < k then i else i + 1;
        assert r[i] == ps[i'] && i' != k;
      }
      forall x | x in Ids(ps) && x != id
        ensures x in Ids(r)
      {
        var i :| 0 <= i < |ps| && ps[i].id == x;
        assert Ids(r)[if i < k then i else i - 1] == x;
      }
    }
  }

  /** Positions before the found index keep their record; later ones shift down by one. */
  lemma RemovedAt(ps: seq<Panorama>, id: Id)
    requires UniqueIds(ps) && FindIndex(ps, id) >= 0
    ensures var k := FindIndex(ps, id); var r := Removed(ps, id);
      |r| == |ps| - 1 && UniqueIds(r)
      && forall i :: 0 <= i < |r| ==> r[i] == (if i < k then ps[i] else ps[i + 1])
  {
    var k := FindIndex(ps, id);
    var r := Removed(ps, id);
    SpliceAt(ps, k);
    forall i, j | 0 <= i < j < |r|
      ensures r[i].id != r[j].id
    {
      assert r[i] == ps[if i < k then i else i + 1];
      assert r[j] == ps[if j < k then j else j + 1];
    }
  }

  /**
   * The delete button is created only for records whose type is not
   * 'default'; deleting such a record never removes a preset.
   */
  lemma PresetsSurviveUserDelete(ps: seq<Panorama>, id: Id)
    requires UniqueIds(ps)
    requires forall i :: 0 <= i < |ps| && ps[i].id == id ==> ps[i].kind != Default
    ensures forall p :: p in ps && p.kind == Default ==> p in Removed(ps, id)
  {
    var k := FindIndex(ps, id);
    if k >= 0 {
      forall p | p in ps && p.kind == Default
        ensures p in Removed(ps, id)
      {
        var i :| 0 <= i < |ps| && ps[i] == p;
        assert i != k;
        assert Removed(ps, id)[if i < k then i else i - 1] == p;
      }
    }
  }

  /** How many gallery entries carry the active mark when `active` is the marked id. */
  function ActiveCount(ps: seq<Panorama>, active: Option<Id>): nat {
    if ps == [] then 0
    else (if active == Some(ps[0].id) then 1 else 0) + ActiveCount(ps[1..], active)
  }

  lemma {:induction false} NoActiveEntry(ps: seq<Panorama>, active: Option<Id>)
    requires active.None? || active.value !in Ids(ps)
    ensures ActiveCount(ps, active) == 0
  {
    if ps != [] {
      assert Ids(ps) == [ps[0].id] + Ids(ps[1..]);
      NoActiveEntry(ps[1..], active);
    }
  }

  /** With unique ids, marking an id of the list marks exactly one gallery entry. */
  lemma {:induction false} ExactlyOneActive(ps: seq<Panorama>, id: Id)
    requires UniqueIds(ps) && id in Ids(ps)
    ensures ActiveCount(ps, Some(id)) == 1
  {
    assert Ids(ps) == [ps[0].id] + Ids(ps[1..]);
    UniqueTail(ps);
    if ps[0].id == id {
      NoActiveEntry(ps[1..], Some(id));
    } else {
      ExactlyOneActive(ps[1..], id);
    }
  }

  /** The records after the first have unique ids, none of them the first's. */
  lemma UniqueTail(ps: seq<Panorama>)
    requires UniqueIds(ps) && ps != []
    ensures UniqueIds(ps[1..]) && ps[0].id !in Ids(ps[1..])
  {
    var tail := ps[1..];
    forall i, j | 0 <= i < j < |tail|
      ensures tail[i].id != tail[j].id
    {
      assert tail[i] == ps[i + 1] && tail[j] == ps[j + 1];
    }
    forall i | 0 <= i < |tail|
      ensures Ids(tail)[i] != ps[0].id
    {
      assert tail[i] == ps[i + 1];
    }
  }

  /** `updateActiveGalleryItem(id)`: clear every mark, then mark the entry holding `id` if there is one. */
  function MarkActive(ps: seq<Panorama>, id: Id): (r: Option<Id>)
    ensures r.Some? <==> id in Ids(ps)
    ensures r.Some? ==> r.value == id
  {
    if id in Ids(ps) then Some(id) else None
  }

  lemma MarkActiveMarksOne(ps: seq<Panorama>, id: Id)
    requires UniqueIds(ps)
    ensures ActiveCount(ps, MarkActive(ps, id)) == (if id in Ids(ps) then 1 else 0)
  {
    if id in Ids(ps) {
      ExactlyOneActive(ps, id);
    } else {
      NoActiveEntry(ps, None);
    }
  }

  /**
   * The active mark as `deletePanorama` reads it through `getCurrentPanoramaId`
   * as written: after the deleted record's gallery element has been removed.
   * If that element was the active one no entry is marked any more, so the
   * id read back is never the deleted one and the reload branch never runs.
   */
  function ActiveAfterRemovalAsWritten(active: Option<Id>, id: Id): (r: Option<Id>)
    ensures r != Some(id)
    ensures active == Some(id) ==> r == None
    ensures active != Some(id) ==> r == active
  {
    if active == Some(id) then None else active
  }

  /**
   * The intended rule: when the deleted record was the active one and records
   * remain, `panoramas[0]` is reloaded and, once its texture has loaded,
   * becomes the marked entry.
   */
  function ActiveAfterDelete(rest: seq<Panorama>, active: Option<Id>, id: Id, textureLoaded: bool): (r: Option<Id>)
    ensures active != Some(id) ==> r == active
    ensures active == Some(id) && |rest| > 0 && textureLoaded ==> r == Some(rest[0].id)
    ensures r.Some? && active.Some? && active.value in Ids(rest) ==> r.value in Ids(rest)
  {
    if active == Some(id) && |rest| > 0 && textureLoaded then Some(rest[0].id)
    else if active == Some(id) then None
    else active
  }

  /**
   * After a delete under the intended rule, a gallery that had a marked
   * entry and still has records again has exactly one marked entry (once the
   * reloaded texture arrives).
   */
  lemma DeleteKeepsOneActive(ps: seq<Panorama>, active: Id, id: Id)
    requires UniqueIds(ps) && active in Ids(ps)
    ensures var rest := Removed(ps, id);
      |rest| > 0 ==> ActiveCount(rest, ActiveAfterDelete(rest, Some(active), id, true)) == 1
  {
    var rest := Removed(ps, id);
    RemovedShape(ps, id);
    if |rest| > 0 {
      if active == id {
        assert Ids(rest)[0] == rest[0].id;
        ExactlyOneActive(rest, rest[0].id);
      } else {
        ExactlyOneActive(rest, active);
      }
    }
  }

  /**
   * The discrepancy on a concrete gallery: a preset followed by an upload
   * that is marked active. Deleting the upload as written leaves one record
   * and no marked entry; the intended rule marks the preset.
   */
  lemma AsWrittenDeleteLeavesNoActiveEntry()
    ensures var upload := Panorama(UploadId(1.5), "room.jpg", "data:", User, Some(1000), "3000 × 1500");
      var ps := [PresetCatalog()[0], upload];
      var rest := Removed(ps, upload.id);
      rest == [PresetCatalog()[0]]
      && ActiveCount(rest, ActiveAfterRemovalAsWritten(Some(upload.id), upload.id)) == 0
      && ActiveCount(rest, ActiveAfterDelete(rest, Some(upload.id), upload.id, true)) == 1
  {
    var upload := Panorama(UploadId(1.5), "room.jpg", "data:", User, Some(1000), "3000 × 1500");
    var ps := [PresetCatalog()[0], upload];
    assert FindIndex(ps, upload.id) == 1;
    var rest := Removed(ps, upload.id);
    assert rest == [PresetCatalog()[0]];
    assert ActiveCount(rest[1..], None) == 0;
    assert ActiveCount(rest[1..], Some(rest[0].id)) == 0;
  }
}
