/** Properties of the route handlers: every handler keeps the store
    invariant, and a handler's effect is visible to the lookups after it. */
module Properties {
  import opened Wrappers
  import opened Cards
  import opened Ordering
  import opened Api
  import Upload

  // ---------------------------------------------------------------------
  // The invariant is preserved
  // ---------------------------------------------------------------------

  lemma CreatePreservesValid(s: State, body: Fields, filename: Option<string>, now: int)
    requires Valid(s)
    ensures Valid(CreateCard(s, body, filename, now).state)
  {
    if filename.Some? {
      var r := CreateCard(s, body, filename, now);
      var cs := r.state.cards;
      Upload.ImageUrlShape(filename.value);
      forall i, j | 0 <= i < j < |cs|
        ensures cs[i].num != cs[j].num
      {
        if j == |s.cards| {
          assert cs[i] == s.cards[i] && cs[i] in s.cards;
        } else {
          assert cs[i] == s.cards[i] && cs[j] == s.cards[j];
        }
      }
    }
  }

  lemma UpdatePreservesValid(s: State, key: string, body: Fields, filename: Option<string>)
    requires Valid(s)
    ensures Valid(UpdateCard(s, key, body, filename).state)
  {
    match FindIndex(s.cards, key)
    case None =>
    case Some(i) =>
      var cs := UpdateCard(s, key, body, filename).state.cards;
      assert forall j :: 0 <= j < |cs| ==> cs[j].num == s.cards[j].num;
      if filename.Some? {
        Upload.ImageUrlShape(filename.value);
      }
      forall c | c in cs
        ensures 1 <= c.num < s.counter && Upload.IsImageUrl(c.imageUrl)
      {
        var j :| 0 <= j < |cs| && cs[j] == c;
        assert s.cards[j] in s.cards;
      }
  }

  lemma DeletePreservesValid(s: State, key: string)
    requires Valid(s)
    ensures Valid(DeleteCard(s, key).state)
  {
    match FindIndex(s.cards, key)
    case None =>
    case Some(i) =>
      var cs := DeleteCard(s, key).state.cards;
      forall j | 0 <= j < |cs|
        ensures cs[j] == s.cards[if j < i then j else j + 1]
      {
      }
      forall c | c in cs
        ensures c in s.cards
      {
        var j :| 0 <= j < |cs| && cs[j] == c;
      }
  }

  lemma ListPreservesValid(s: State)
    requires Valid(s)
    ensures Valid(ListCards(s).state)
  {
    var cs := ListCards(s).state.cards;
    SortKeepsDistinct(s.cards);
    forall c | c in cs
      ensures c in s.cards
    {
      assert c in multiset(cs);
    }
  }

  // ---------------------------------------------------------------------
  // What a lookup sees after each handler
  // ---------------------------------------------------------------------

  /** In a valid store a card is found by its own id. */
  lemma GetFindsCard(s: State, i: nat)
    requires Valid(s) && i < |s.cards|
    ensures GetCard(s, Id(s.cards[i])).reply == Found(s.cards[i])
  {
    FindIndexOfNum(s.cards, i);
  }

  /** The id a create issues is not in use beforehand, and afterwards it
      finds the new card, whose image URL is never empty. */
  lemma CreateThenGet(s: State, body: Fields, filename: string, now: int)
    requires Valid(s)
    ensures GetCard(s, IdText(s.counter)).reply == NotFound
    ensures var r := CreateCard(s, body, Some(filename), now);
            && GetCard(r.state, IdText(s.counter)).reply == Found(r.reply.card)
            && |r.reply.card.imageUrl| > 0
  {
    forall c | c in s.cards
      ensures Id(c) != IdText(s.counter)
    {
      IdTextInjective(c.num, s.counter);
    }
    var r := CreateCard(s, body, Some(filename), now);
    CreatePreservesValid(s, body, Some(filename), now);
    GetFindsCard(r.state, |s.cards|);
  }

  /** After an update, a lookup of the same id returns the updated card. */
  lemma UpdateThenGet(s: State, key: string, body: Fields, filename: Option<string>)
    requires Valid(s)
    requires FindIndex(s.cards, key).Some?
    ensures var r := UpdateCard(s, key, body, filename);
            GetCard(r.state, key) == Outcome(r.state, Found(r.reply.card))
  {
    var i := FindIndex(s.cards, key).value;
    var r := UpdateCard(s, key, body, filename);
    UpdatePreservesValid(s, key, body, filename);
    assert Id(r.state.cards[i]) == key;
    GetFindsCard(r.state, i);
  }

  /** After a delete, the id is gone. */
  lemma DeleteThenGet(s: State, key: string)
    requires Valid(s)
    ensures GetCard(DeleteCard(s, key).state, key).reply == NotFound
  {
    match FindIndex(s.cards, key)
    case None =>
    case Some(i) =>
      var cs := DeleteCard(s, key).state.cards;
      forall c | c in cs
        ensures Id(c) != key
      {
        var j :| 0 <= j < |cs| && cs[j] == c;
        var k := if j < i then j else j + 1;
        assert c == s.cards[k] && k != i;
        IdTextInjective(s.cards[k].num, s.cards[i].num);
      }
  }

  /** A delete removes exactly the card it found and nothing else. */
  lemma DeleteRemovesOne(s: State, key: string)
    requires FindIndex(s.cards, key).Some?
    ensures var i := FindIndex(s.cards, key).value;
            multiset(DeleteCard(s, key).state.cards) + multiset{s.cards[i]} == multiset(s.cards)
  {
    var i := FindIndex(s.cards, key).value;
    var cs := DeleteCard(s, key).state.cards;
    assert cs == s.cards[..i] + s.cards[i + 1..];
    assert s.cards == s.cards[..i] + [s.cards[i]] + s.cards[i + 1..];
  }

  /** Listing twice is listing once: the stored order is already sorted. */
  lemma ListIdempotent(s: State)
    ensures ListCards(ListCards(s).state) == ListCards(s)
  {
    SortSorted(ListCards(s).state.cards);
  }

  /** In a valid store, listing does not change what a lookup returns. */
  lemma GetAfterList(s: State, key: string)
    requires Valid(s)
    ensures GetCard(ListCards(s).state, key).reply == GetCard(s, key).reply
  {
    var t := ListCards(s).state;
    ListPreservesValid(s);
    match FindIndex(s.cards, key)
    case None =>
      forall c | c in t.cards
        ensures Id(c) != key
      {
        assert c in multiset(t.cards);
      }
    case Some(i) =>
      var c := s.cards[i];
      assert c in multiset(t.cards);
      var k :| 0 <= k < |t.cards| && t.cards[k] == c;
      GetFindsCard(t, k);
  }

  /** Text fields the client leaves out are cleared, not kept: the spread
      copies `undefined` over them. A title-only update leaves the card
      with no description and no tags, and an image-only update leaves it
      with no text at all. */
  lemma OmittedFieldsCleared(s: State, key: string, title: string, filename: string)
    requires Valid(s) && FindIndex(s.cards, key).Some?
    ensures var r := UpdateCard(s, key, Fields(Some(title), None, None), None);
            var before := s.cards[FindIndex(s.cards, key).value];
            GetCard(r.state, key).reply == Found(before.(title := Some(title), description := None, tags := None))
    ensures var r := UpdateCard(s, key, Fields(None, None, None), Some(filename));
            var before := s.cards[FindIndex(s.cards, key).value];
            GetCard(r.state, key).reply
              == Found(before.(title := None, description := None, tags := None,
                            imageUrl := Upload.ImageUrl(filename)))
  {
    UpdateThenGet(s, key, Fields(Some(title), None, None), None);
    UpdateThenGet(s, key, Fields(None, None, None), Some(filename));
  }
}
