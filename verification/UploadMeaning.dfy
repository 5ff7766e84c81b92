/** What an upload leaves on the server, attribute by attribute and for every case of the merge
    (opsiclientd/nonfree/CacheBackend.py). */
module UploadMeanings {
  import opened CacheBackends
  import opened Common

  /** The object is the client's own, and both sides knew it at the last replication and know it now. */
  predicate OnBothSides(c: Local, master: Objects, id: Ident) {
    id.Owner() == c.clientId && id in c.snapshot && id in master
  }

  /** The server lists the product in the versions of the last replication. */
  predicate SameVersions(c: Local, p: string) {
    var none: multiset<string> := multiset{};
    (if p in c.snapshotVersions then c.snapshotVersions[p] else none) ==
    (if p in c.masterVersions then c.masterVersions[p] else none)
  }

  predicate SameList(xs: seq<string>, ys: seq<string>) {
    |xs| == |ys| && (set x | x in xs) == (set y | y in ys)
  }

  /** The values of a config or property state on the server are those of the last replication. */
  predicate SameStateValues(a: Attributes, b: Attributes) {
    SameList(if "values" in a && a["values"].List? then a["values"].items else [],
             if "values" in b && b["values"].List? then b["values"].items else [])
  }

  /** The attribute of the local object is uploaded where the object is in the work backend. */
  predicate Uploads(c: Local, master: Objects, id: Ident, k: string) {
    !OnBothSides(c, master, id) ||
    match id
    case ProductOnClient(p, _, _) => SameVersions(c, p) || (k != "actionRequest" && k != "targetConfiguration")
    case LicenseOnClient(_, _, _) => true
    case _ => SameStateValues(c.snapshot[id], master[id])
  }

  /** The value of an attribute of an object, where it has one. */
  function At(b: Objects, id: Ident, k: string): Option<Value> {
    if id in b && k in b[id] then Some(b[id][k]) else None
  }

  lemma SameListIff(xs: seq<string>, ys: seq<string>)
    ensures SameList(xs, ys) <==> SameMembers(xs, ys)
  {
    var a, b := set x | x in xs, set y | y in ys;
    assert forall x :: (x in xs <==> x in a) && (x in ys <==> x in b);
  }

  /** Every attribute of a locally inserted or updated object reaches the server, but for the attributes that the
      merge holds back; those and all others stay as they are there. */
  lemma UploadedAttribute(c: Local, master: Objects, mods: Tracker, id: Ident, k: string)
    requires id in mods && mods[id] != Delete && id in c.work
    ensures At(Applied(c, master, mods), id, k) ==
              if k in c.work[id] && Uploads(c, master, id, k) then Some(c.work[id][k]) else At(master, id, k)
  {
    var r := Applied(c, master, mods);
    assert Lookup(r, id) == ResultAt(c, master, mods, id);
    if OnBothSides(c, master, id) {
      SameListIff(ValuesOf(c.snapshot[id]), ValuesOf(master[id]));
    }
  }

  /** Whatever the server did to a product's entry: if it still offers the same versions, the whole local entry
      arrives, and if not, everything but the request. */
  lemma ProductArrives(c: Local, master: Objects, mods: Tracker, id: Ident)
    requires id.ProductOnClient? && id in mods && mods[id] != Delete && id in c.work
    ensures id in Applied(c, master, mods)
    ensures forall k :: k in c.work[id] &&
              (SameVersions(c, id.productId) || k !in {"actionRequest", "targetConfiguration"})
              ==> At(Applied(c, master, mods), id, k) == Some(c.work[id][k])
  {
    forall k | k in c.work[id] && (SameVersions(c, id.productId) || k !in {"actionRequest", "targetConfiguration"})
      ensures At(Applied(c, master, mods), id, k) == Some(c.work[id][k])
    {
      UploadedAttribute(c, master, mods, id, k);
    }
    assert Lookup(Applied(c, master, mods), id) == ResultAt(c, master, mods, id);
  }

  /** The whole local object arrives exactly if nothing that the merge holds back differs on the server. */
  lemma AgreesIff(c: Local, master: Objects, mods: Tracker, id: Ident)
    requires id in mods && mods[id] != Delete && id in c.work && id in master
    ensures AgreesWithWork(c, Applied(c, master, mods), id) <==>
              forall k :: k in c.work[id] && !Uploads(c, master, id, k) ==> At(master, id, k) == Some(c.work[id][k])
  {
    hide Uploads;
    var r := Applied(c, master, mods);
    assert Lookup(r, id) == ResultAt(c, master, mods, id);
    assert id in r;
    forall k
      ensures At(r, id, k) ==
              if k in c.work[id] && Uploads(c, master, id, k) then Some(c.work[id][k]) else At(master, id, k)
    {
      UploadedAttribute(c, master, mods, id, k);
    }
    assert AgreesWithWork(c, r, id) <==> forall k :: k in c.work[id] ==> At(r, id, k) == Some(c.work[id][k]);
  }

  // ----- deletions -----

  /** Both objects have the attribute with equal values, or neither has it; lists are equal up to order. */
  predicate SameAttribute(a: Attributes, b: Attributes, k: string) {
    if k in a && k in b then
      match (a[k], b[k])
      case (Single(s), Single(t)) => s == t
      case (List(xs), List(ys)) => SameList(xs, ys)
      case _ => false
    else k !in a && k !in b
  }

  /** What the comparison before a deletion looks at: all attributes, but the progress of a product. */
  predicate Compared(id: Ident, k: string) {
    id.ProductOnClient? ==> k != "modificationTime" && k != "actionProgress" && k != "actionResult" && k != "lastAction"
  }

  lemma DifferIff(id: Ident, a: Attributes, b: Attributes)
    ensures !Differ(id, a, b) <==> forall k :: Compared(id, k) ==> SameAttribute(a, b, k)
  {
    forall k
      ensures SameAttribute(a, b, k) <==> if k in a && k in b then SameValue(a[k], b[k]) else k !in a.Keys + b.Keys
    {
      if k in a && k in b && a[k].List? && b[k].List? {
        SameListIff(a[k].items, b[k].items);
      }
    }
  }

  /** A local deletion reaches the server exactly if the object is the client's own, both sides have it and each
      attribute that is compared is the same on both sides; else the object on the server stays as it is. */
  lemma DeletedIff(c: Local, master: Objects, mods: Tracker, id: Ident)
    requires id in mods && mods[id] == Delete && id in master
    ensures id !in Applied(c, master, mods) <==>
              OnBothSides(c, master, id) && forall k :: Compared(id, k) ==> SameAttribute(c.snapshot[id], master[id], k)
    ensures id in Applied(c, master, mods) ==> Applied(c, master, mods)[id] == master[id]
  {
    hide Differ, Applied;
    DeleteIffUnchanged(c, master, mods, id);
    if id in c.snapshot {
      DifferIff(id, c.snapshot[id], master[id]);
    }
  }
}
