/**
  The clubs table and the operations its repository inherits
  (findById, existsById, save, delete, deleteById).
 */
module ClubRepo {
  import opened Model

  /** Generated ids: no two clubs share an id. */
  ghost predicate DistinctIds(clubs: seq<Club>)
  {
    clubs == [] || ((forall c :: c in clubs[1..] ==> c.id != clubs[0].id) && DistinctIds(clubs[1..]))
  }

  /** existsById. */
  predicate ExistsById(clubs: seq<Club>, id: ClubId)
  {
    exists c :: c in clubs && c.id == id
  }

  /** findById: the club with that id, or none. */
  function FindById(clubs: seq<Club>, id: ClubId): (r: Option<Club>)
    ensures r.Some? ==> r.value in clubs && r.value.id == id
    ensures r.None? <==> !ExistsById(clubs, id)
  {
    if clubs == [] then None
    else if clubs[0].id == id then Some(clubs[0])
    else
      var r := FindById(clubs[1..], id);
      assert forall c :: c in clubs ==> c == clubs[0] || c in clubs[1..];
      r
  }

  /** save(entity) of a club that already exists: the club with that id becomes `club`. */
  function Replace(clubs: seq<Club>, club: Club): (r: seq<Club>)
    ensures |r| == |clubs|
    ensures forall i :: 0 <= i < |clubs| ==> r[i] == if clubs[i].id == club.id then club else clubs[i]
  {
    if clubs == [] then []
    else [if clubs[0].id == club.id then club else clubs[0]] + Replace(clubs[1..], club)
  }

  /** delete(entity) and deleteById: removes the club with that id. */
  function DeleteById(clubs: seq<Club>, id: ClubId): (r: seq<Club>)
    ensures |r| <= |clubs|
    ensures forall c :: c in r <==> c in clubs && c.id != id
  {
    if clubs == [] then []
    else
      var rest := DeleteById(clubs[1..], id);
      assert forall c :: c in clubs ==> c == clubs[0] || c in clubs[1..];
      if clubs[0].id == id then rest else [clubs[0]] + rest
  }

  /** With distinct ids, the lookup by id finds the one club holding it. */
  lemma {:induction false} FindByIdUnique(clubs: seq<Club>, c: Club)
    requires DistinctIds(clubs) && c in clubs
    ensures FindById(clubs, c.id) == Some(c)
  {
    if clubs[0] != c {
      assert c in clubs[1..];
      FindByIdUnique(clubs[1..], c);
    }
  }

  lemma {:induction false} AppendKeepsDistinct(clubs: seq<Club>, c: Club)
    requires DistinctIds(clubs)
    requires forall x :: x in clubs ==> x.id != c.id
    ensures DistinctIds(clubs + [c])
  {
    if clubs == [] {
      assert [] + [c] == [c];
      assert [c][1..] == [];
    } else {
      assert (clubs + [c])[0] == clubs[0];
      assert (clubs + [c])[1..] == clubs[1..] + [c];
      assert clubs[0] in clubs;
      assert forall x :: x in clubs[1..] ==> x in clubs;
      AppendKeepsDistinct(clubs[1..], c);
    }
  }

  lemma {:induction false} DeleteKeepsDistinct(clubs: seq<Club>, id: ClubId)
    requires DistinctIds(clubs)
    ensures DistinctIds(DeleteById(clubs, id))
  {
    if clubs != [] {
      DeleteKeepsDistinct(clubs[1..], id);
    }
  }

  /** Overwriting a club by one with the same id keeps the ids distinct. */
  lemma {:induction false} ReplaceKeepsDistinct(clubs: seq<Club>, club: Club)
    requires DistinctIds(clubs)
    ensures DistinctIds(Replace(clubs, club))
  {
    if clubs != [] {
      var r := Replace(clubs, club);
      ReplaceKeepsDistinct(clubs[1..], club);
      assert r[1..] == Replace(clubs[1..], club);
      forall x | x in r[1..] ensures x.id != r[0].id {
        var j :| 0 <= j < |r| - 1 && r[1..][j] == x;
        assert clubs[1..][j] in clubs[1..];
      }
    }
  }

  /** After overwriting, every club is an old one or the new version. */
  lemma ReplaceKeepsOthers(clubs: seq<Club>, club: Club)
    ensures forall x :: x in Replace(clubs, club) ==> x in clubs || x == club
  {
    var r := Replace(clubs, club);
    forall x | x in r ensures x in clubs || x == club {
      var i :| 0 <= i < |r| && r[i] == x;
      assert clubs[i] in clubs;
    }
  }

  /** Overwriting keeps the id of every position, so the same ids exist. */
  lemma ReplaceKeepsIds(clubs: seq<Club>, club: Club)
    ensures forall id :: ExistsById(Replace(clubs, club), id) <==> ExistsById(clubs, id)
  {
    var r := Replace(clubs, club);
    assert forall i :: 0 <= i < |clubs| ==> r[i].id == clubs[i].id;
    forall id | ExistsById(r, id) ensures ExistsById(clubs, id) {
      var x :| x in r && x.id == id;
      var i :| 0 <= i < |r| && r[i] == x;
      assert clubs[i] in clubs;
    }
    forall id | ExistsById(clubs, id) ensures ExistsById(r, id) {
      var x :| x in clubs && x.id == id;
      var i :| 0 <= i < |clubs| && clubs[i] == x;
      assert r[i] in r;
    }
  }

  /** After overwriting a stored club, the lookup by its id finds the new version. */
  lemma ReplaceThenFind(clubs: seq<Club>, club: Club)
    requires DistinctIds(clubs) && ExistsById(clubs, club.id)
    ensures FindById(Replace(clubs, club), club.id) == Some(club)
  {
    var c :| c in clubs && c.id == club.id;
    var i :| 0 <= i < |clubs| && clubs[i] == c;
    assert Replace(clubs, club)[i] == club;
    ReplaceKeepsDistinct(clubs, club);
    FindByIdUnique(Replace(clubs, club), club);
  }

  /** Overwriting with the same club twice is overwriting once. */
  lemma ReplaceTwice(clubs: seq<Club>, club: Club)
    ensures Replace(Replace(clubs, club), club) == Replace(clubs, club)
  {
    var r := Replace(clubs, club);
    assert forall i :: 0 <= i < |r| ==> Replace(r, club)[i] == r[i];
  }
}
