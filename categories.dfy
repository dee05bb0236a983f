/** The category dictionary `{id: type}` built by the `GET /categories` and `GET /questions` handlers. */
module Categories {
  import opened TriviaTypes

  /** The dictionary after inserting the categories one after another, as a Python dict does:
      a later category with an identifier already present overwrites the earlier entry. */
  function CategoriesDict(cats: seq<Category>): map<int, string>
  {
    if cats == [] then map[]
    else
      var last := cats[|cats| - 1];
      CategoriesDict(cats[..|cats| - 1])[last.id := last.categoryType]
  }

  /** The loop of `get_all_categories`: one dictionary insertion per category row, in row order. */
  method BuildCategoriesDict(cats: seq<Category>) returns (d: map<int, string>)
    ensures d == CategoriesDict(cats)
  {
    d := map[];
    for i := 0 to |cats|
      invariant d == CategoriesDict(cats[..i])
    {
      assert cats[..i + 1][..i] == cats[..i];
      d := d[cats[i].id := cats[i].categoryType];
    }
    assert cats[..|cats|] == cats;
  }

  /** The dictionary's keys are exactly the identifiers of the categories. */
  lemma {:induction false} CategoriesDictKeys(cats: seq<Category>)
    ensures CategoriesDict(cats).Keys == set c | c in cats :: c.id
  {
    if cats != [] {
      var init := cats[..|cats| - 1];
      CategoriesDictKeys(init);
      assert cats == init + [cats[|cats| - 1]];
    }
  }

  /** An identifier maps to the type of the last category row that carries it. */
  lemma {:induction false} CategoriesDictLastWins(cats: seq<Category>, i: nat)
    requires i < |cats|
    requires forall j :: i < j < |cats| ==> cats[j].id != cats[i].id
    ensures cats[i].id in CategoriesDict(cats)
    ensures CategoriesDict(cats)[cats[i].id] == cats[i].categoryType
  {
    if i < |cats| - 1 {
      var init := cats[..|cats| - 1];
      CategoriesDictLastWins(init, i);
    }
  }

  /** Categories with distinct identifiers give one entry per category, each identifier mapped to its own type. */
  lemma CategoriesDictOfDistinct(cats: seq<Category>)
    requires forall i, j :: 0 <= i < j < |cats| ==> cats[i].id != cats[j].id
    ensures |CategoriesDict(cats)| == |cats|
    ensures forall i :: 0 <= i < |cats| ==> cats[i].id in CategoriesDict(cats) && CategoriesDict(cats)[cats[i].id] == cats[i].categoryType
  {
    forall i | 0 <= i < |cats|
      ensures cats[i].id in CategoriesDict(cats) && CategoriesDict(cats)[cats[i].id] == cats[i].categoryType
    {
      CategoriesDictLastWins(cats, i);
    }
    DistinctIdsCount(cats);
  }

  /** Distinct identifiers: the dictionary has as many keys as there are categories. */
  lemma {:induction false} DistinctIdsCount(cats: seq<Category>)
    requires forall i, j :: 0 <= i < j < |cats| ==> cats[i].id != cats[j].id
    ensures |CategoriesDict(cats)| == |cats|
  {
    if cats != [] {
      var init := cats[..|cats| - 1];
      DistinctIdsCount(init);
      CategoriesDictKeys(init);
      var last := cats[|cats| - 1];
      forall c | c in init
        ensures c.id != last.id
      {
        var k :| 0 <= k < |init| && init[k] == c;
        assert cats[k] == c;
      }
      assert last.id !in CategoriesDict(init);
    }
  }
}
