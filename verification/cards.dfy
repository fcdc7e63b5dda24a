/** The in-memory card store of server.js: the `cards` array and the
    `idCounter` that numbers new cards (server.js:19-20). */
module Cards {
  import opened Wrappers
  import Decimal
  import Upload

  /** A stored card. Its JSON `id` is `"card_" + num` (see `Id`). A text
      field is `None` when the stored object holds `undefined` there.
      `createdAt` is the creation instant in milliseconds; the source keeps
      it as an ISO-8601 string, which converts back to the same instant. */
  datatype Card = Card(
    num: nat,
    title: Option<string>,
    description: Option<string>,
    tags: Option<string>,
    imageUrl: string,
    createdAt: int)

  /** The whole server state: the cards in array order and the next number. */
  datatype State = State(cards: seq<Card>, counter: nat)

  const IdPrefix: string := "card_"

  /** The id string of the card numbered `num`: `card_${num}`. */
  function IdText(num: nat): string {
    IdPrefix + Decimal.Digits(num)
  }

  function Id(c: Card): string {
    IdText(c.num)
  }

  /** Different numbers give different id strings, so comparing id strings
      is comparing numbers. */
  lemma IdTextInjective(m: nat, n: nat)
    ensures IdText(m) == IdText(n) <==> m == n
  {
    if IdText(m) == IdText(n) {
      assert Decimal.Digits(m) == IdText(m)[|IdPrefix|..];
      assert Decimal.Digits(n) == IdText(n)[|IdPrefix|..];
      Decimal.DigitsInjective(m, n);
    }
  }

  /** No two cards share a number. */
  predicate DistinctNums(cs: seq<Card>) {
    forall i, j :: 0 <= i < j < |cs| ==> cs[i].num != cs[j].num
  }

  /** Every card was numbered from 1 up to, but excluding, `counter`. */
  predicate NumberedBelow(cs: seq<Card>, counter: nat) {
    forall c :: c in cs ==> 1 <= c.num < counter
  }

  /** Every card's image is served from the uploads directory. */
  predicate ImagesUploaded(cs: seq<Card>) {
    forall c :: c in cs ==> Upload.IsImageUrl(c.imageUrl)
  }

  /** The store invariant: ids are pairwise distinct, each was issued by the
      counter (which starts at 1), and each card has an uploaded image. */
  predicate Valid(s: State) {
    && s.counter >= 1
    && DistinctNums(s.cards)
    && NumberedBelow(s.cards, s.counter)
    && ImagesUploaded(s.cards)
  }

  /** Process start: no cards, and the first id will be `card_1`. */
  function Init(): (s: State)
    ensures Valid(s) && |s.cards| == 0 && IdText(s.counter) == "card_1"
  {
    State([], 1)
  }

  /** `i` is the first index whose card has id `key`. */
  predicate IsFirstMatch(cs: seq<Card>, key: string, i: nat) {
    && i < |cs|
    && Id(cs[i]) == key
    && forall j :: 0 <= j < i ==> Id(cs[j]) != key
  }

  /** `cards.findIndex(c => c.id === key)`, with -1 as `None`. */
  function FindIndex(cs: seq<Card>, key: string): (r: Option<nat>)
    ensures r.Some? ==> IsFirstMatch(cs, key, r.value)
    ensures r.None? <==> forall j :: 0 <= j < |cs| ==> Id(cs[j]) != key
  {
    if |cs| == 0 then None
    else if Id(cs[0]) == key then Some(0)
    else match FindIndex(cs[1..], key)
      case None => None
      case Some(i) => Some(i + 1)
  }

  /** With distinct numbers, the id of the card at `i` finds exactly `i`. */
  lemma FindIndexOfNum(cs: seq<Card>, i: nat)
    requires DistinctNums(cs) && i < |cs|
    ensures FindIndex(cs, Id(cs[i])) == Some(i)
  {
    forall j | 0 <= j < i
      ensures Id(cs[j]) != Id(cs[i])
    {
      IdTextInjective(cs[j].num, cs[i].num);
    }
  }
}
