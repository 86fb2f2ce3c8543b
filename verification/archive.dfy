/**
  The two changes the app makes to the children collection: replacing one
  child's traits text (the card's edit form) and prepending a new child (the
  admin form).
 */
module Archive {
  import opened Sorting
  import opened Records
  import opened Gallery

  /** One record after an edit of the record with the given id. */
  function UpdateOne(b: Bird, id: string, traits: string): Bird {
    if b.id == id then b.(traits := traits) else b
  }

  /**
    The edit: records with the given id get the new traits text; nothing
    else changes (length, order, ids and every other field are kept).
   */
  function UpdateTraits(birds: seq<Bird>, id: string, traits: string): (r: seq<Bird>)
    ensures |r| == |birds|
    ensures forall i :: 0 <= i < |r| ==> r[i].id == birds[i].id && r[i].birthDate == birds[i].birthDate
    ensures forall i :: 0 <= i < |r| && birds[i].id != id ==> r[i] == birds[i]
    ensures forall i :: 0 <= i < |r| && birds[i].id == id ==>
      r[i].traits == traits && r[i].(traits := birds[i].traits) == birds[i]
  {
    if |birds| == 0 then []
    else [UpdateOne(birds[0], id, traits)] + UpdateTraits(birds[1..], id, traits)
  }

  /** Editing with no matching id leaves the collection as it was. */
  lemma UpdateWithoutMatch(birds: seq<Bird>, id: string, traits: string)
    requires forall i :: 0 <= i < |birds| ==> birds[i].id != id
    ensures UpdateTraits(birds, id, traits) == birds
  {
  }

  /** Saving the same edit twice is the same as saving it once. */
  lemma UpdateIdempotent(birds: seq<Bird>, id: string, traits: string)
    ensures UpdateTraits(UpdateTraits(birds, id, traits), id, traits) == UpdateTraits(birds, id, traits)
  {
  }

  /** An edit keeps every cohort key, so the filter buttons stay the same. */
  lemma UpdateKeepsFilterOptions(birds: seq<Bird>, id: string, traits: string)
    ensures FilterOptions(UpdateTraits(birds, id, traits)) == FilterOptions(birds)
  {
    assert Years(UpdateTraits(birds, id, traits)) == Years(birds);
  }

  /**
    An edit keeps the card order: the filtered, sorted view of the edited
    collection is the edit applied to the view of the original.
   */
  lemma UpdateCommutesWithView(birds: seq<Bird>, filter: string, id: string, traits: string)
    ensures FilteredBirds(UpdateTraits(birds, id, traits), filter)
         == UpdateTraits(FilteredBirds(birds, filter), id, traits)
  {
    BirthLeIsTotalPreorder();
    var list := if filter == AllFilter then birds else Keep(birds, filter);
    var list' := if filter == AllFilter then UpdateTraits(birds, id, traits)
                 else Keep(UpdateTraits(birds, id, traits), filter);
    if filter != AllFilter {
      KeepCommutes(birds, filter, id, traits);
    }
    assert list' == UpdateTraits(list, id, traits);
    SortCommutes(list, id, traits);
  }

  lemma {:induction false} KeepCommutes(birds: seq<Bird>, filter: string, id: string, traits: string)
    ensures Keep(UpdateTraits(birds, id, traits), filter) == UpdateTraits(Keep(birds, filter), id, traits)
  {
    if |birds| > 0 {
      var b := birds[0];
      var b' := UpdateOne(b, id, traits);
      var u := UpdateTraits(birds, id, traits);
      assert u == [b'] + UpdateTraits(birds[1..], id, traits);
      assert u[0] == b' && u[1..] == UpdateTraits(birds[1..], id, traits);
      assert Matches(b', filter) == Matches(b, filter);
      KeepCommutes(birds[1..], filter, id, traits);
      var head := if Matches(b, filter) then [b] else [];
      assert Keep(birds, filter) == head + Keep(birds[1..], filter);
      UpdateAppend(head, Keep(birds[1..], filter), id, traits);
    }
  }

  lemma {:induction false} UpdateAppend(a: seq<Bird>, b: seq<Bird>, id: string, traits: string)
    ensures UpdateTraits(a + b, id, traits) == UpdateTraits(a, id, traits) + UpdateTraits(b, id, traits)
  {
    if |a| > 0 {
      var ab := a + b;
      var x := UpdateOne(a[0], id, traits);
      assert ab[0] == a[0] && ab[1..] == a[1..] + b;
      UpdateAppend(a[1..], b, id, traits);
      assert UpdateTraits(ab, id, traits) == [x] + UpdateTraits(ab[1..], id, traits);
      assert UpdateTraits(a, id, traits) == [x] + UpdateTraits(a[1..], id, traits);
    } else {
      assert a + b == b;
    }
  }

  lemma {:induction false} SortCommutes(s: seq<Bird>, id: string, traits: string)
    requires TotalPreorder(BirthLe)
    ensures SortBy(UpdateTraits(s, id, traits), BirthLe) == UpdateTraits(SortBy(s, BirthLe), id, traits)
  {
    if |s| > 0 {
      var u := UpdateTraits(s, id, traits);
      assert u[1..] == UpdateTraits(s[1..], id, traits);
      SortCommutes(s[1..], id, traits);
      InsertCommutes(s[0], SortBy(s[1..], BirthLe), id, traits);
    }
  }

  lemma {:induction false} InsertCommutes(x: Bird, r: seq<Bird>, id: string, traits: string)
    requires TotalPreorder(BirthLe)
    requires SortedBy(r, BirthLe)
    ensures SortedBy(UpdateTraits(r, id, traits), BirthLe)
    ensures Insert(UpdateOne(x, id, traits), UpdateTraits(r, id, traits), BirthLe)
         == UpdateTraits(Insert(x, r, BirthLe), id, traits)
  {
    var u := UpdateTraits(r, id, traits);
    var x' := UpdateOne(x, id, traits);
    UpdateKeepsSorted(r, id, traits);
    if |r| > 0 && !BirthLe(x, r[0]) {
      var r0' := UpdateOne(r[0], id, traits);
      assert u == [r0'] + UpdateTraits(r[1..], id, traits);
      assert u[1..] == UpdateTraits(r[1..], id, traits);
      assert !BirthLe(x', u[0]);
      InsertCommutes(x, r[1..], id, traits);
      assert Insert(x, r, BirthLe) == [r[0]] + Insert(x, r[1..], BirthLe);
      assert Insert(x', u, BirthLe) == [u[0]] + Insert(x', u[1..], BirthLe);
      UpdateAppend([r[0]], Insert(x, r[1..], BirthLe), id, traits);
    } else {
      assert Insert(x, r, BirthLe) == [x] + r;
      assert Insert(x', u, BirthLe) == [x'] + u;
      UpdateAppend([x], r, id, traits);
    }
  }

  lemma UpdateKeepsSorted(r: seq<Bird>, id: string, traits: string)
    requires SortedBy(r, BirthLe)
    ensures SortedBy(UpdateTraits(r, id, traits), BirthLe)
  {
  }

  /** The admin form's add: the new record, with the caller-supplied id, goes in front. */
  function AddBird(birds: seq<Bird>, entry: Bird, id: string): (r: seq<Bird>)
    ensures |r| == |birds| + 1
    ensures r[0].id == id && r[0].(id := entry.id) == entry
    ensures r[1..] == birds
  {
    [entry.(id := id)] + birds
  }

  predicate UniqueIds(birds: seq<Bird>) {
    forall i, j :: 0 <= i < j < |birds| ==> birds[i].id != birds[j].id
  }

  /** With an id no record has yet, the ids stay unique. */
  lemma AddKeepsIdsUnique(birds: seq<Bird>, entry: Bird, id: string)
    requires UniqueIds(birds)
    requires forall i :: 0 <= i < |birds| ==> birds[i].id != id
    ensures UniqueIds(AddBird(birds, entry, id))
  {
    var r := AddBird(birds, entry, id);
    forall i, j | 0 <= i < j < |r| ensures r[i].id != r[j].id {
      if i > 0 {
        assert r[i] == birds[i - 1] && r[j] == birds[j - 1];
      } else {
        assert r[j] == birds[j - 1];
      }
    }
  }

  /** The added record shows under "all", and its cohort key joins the filter keys. */
  lemma AddShows(birds: seq<Bird>, entry: Bird, id: string)
    ensures entry.(id := id) in FilteredBirds(AddBird(birds, entry, id), AllFilter)
    ensures forall k :: k in FilterOptions(AddBird(birds, entry, id)) <==>
      (k in FilterOptions(birds) || k == entry.year)
  {
    var r := AddBird(birds, entry, id);
    var added := entry.(id := id);
    assert r[0] == added;
    assert multiset(r)[added] > 0;
    assert multiset(FilteredBirds(r, AllFilter))[added] > 0;
    forall k ensures k in FilterOptions(r) <==> (k in FilterOptions(birds) || k == entry.year) {
      if k == entry.year {
        assert r[0] in r;
      }
      if exists b :: b in r && b.year == k {
        var b :| b in r && b.year == k;
        if b != added {
          assert b in r[1..];
        }
      }
      if exists b :: b in birds && b.year == k {
        var b :| b in birds && b.year == k;
        assert b in r by {
          assert r[1..] == birds;
        }
      }
    }
  }
}
