/** The five `/api/cards` route handlers of server.js (lines 50-104), as
    pure functions from the store state to the next state and the reply. */
module Api {
  import opened Wrappers
  import opened Cards
  import opened Ordering
  import Upload

  /** The text fields of a request body; `None` is a field the client did
      not send, which Express leaves `undefined`. */
  datatype Fields = Fields(title: Option<string>, description: Option<string>, tags: Option<string>)

  /** What a handler sends back. */
  datatype Reply =
    | Listed(cards: seq<Card>)   // 200, the array
    | Found(card: Card)          // 200, the card
    | Created(card: Card)        // 201, the new card
    | Updated(card: Card)        // 200, the card after the update
    | Deleted                    // 200, { success: true }
    | NotFound                   // 404, "Scheda non trovata"
    | MissingImage               // 400, "Immagine obbligatoria"
    | UploadRejected(error: Upload.UploadError)  // the upload middleware failed; no handler ran

  datatype Outcome = Outcome(state: State, reply: Reply)

  /** `v || ''` for a string or `undefined`: both `undefined` and the empty
      string are falsy, so the result is the sent text or "". */
  function OrEmpty(v: Option<string>): (r: string)
    ensures r == v.GetOr("")
  {
    match v
    case Some(t) => if |t| > 0 then t else ""
    case None => ""
  }

  // ---------------------------------------------------------------------
  // GET /api/cards
  // ---------------------------------------------------------------------

  /** `cards.sort(...)` sorts the stored array in place and replies with it. */
  function ListCards(s: State): (r: Outcome)
    ensures r.state.counter == s.counter
    ensures r.reply == Listed(r.state.cards)
    ensures multiset(r.state.cards) == multiset(s.cards)
    ensures IsStableDescOf(r.state.cards, s.cards)
  {
    SortIsStableDesc(s.cards);
    var sorted := SortDesc(s.cards);
    Outcome(State(sorted, s.counter), Listed(sorted))
  }

  // ---------------------------------------------------------------------
  // GET /api/cards/:id
  // ---------------------------------------------------------------------

  /** `cards.find(c => c.id === key)`: the first card with that id. */
  function GetCard(s: State, key: string): (r: Outcome)
    ensures r.state == s
    ensures r.reply.Found? || r.reply == NotFound
    ensures r.reply == NotFound <==> forall c :: c in s.cards ==> Id(c) != key
    ensures r.reply.Found? ==> exists i: nat :: IsFirstMatch(s.cards, key, i) && r.reply.card == s.cards[i]
  {
    match FindIndex(s.cards, key)
    case None => Outcome(s, NotFound)
    case Some(i) => Outcome(s, Found(s.cards[i]))
  }

  // ---------------------------------------------------------------------
  // POST /api/cards
  // ---------------------------------------------------------------------

  /** The create handler once the upload middleware has run: `filename` is
      the stored file's name, if a file was stored, and `now` the clock
      reading for `createdAt`. */
  function CreateCard(s: State, body: Fields, filename: Option<string>, now: int): (r: Outcome)
    ensures filename.None? ==> r == Outcome(s, MissingImage)
    ensures filename.Some? ==>
      && r.reply.Created?
      && r.state.counter == s.counter + 1
      && r.state.cards == s.cards + [r.reply.card]
    ensures filename.Some? ==>
      var c := r.reply.card;
      && c.num == s.counter
      && c.title == Some(body.title.GetOr(""))
      && c.description == Some(body.description.GetOr(""))
      && c.tags == Some(body.tags.GetOr(""))
      && c.imageUrl == Upload.UploadsPrefix + filename.value
      && c.createdAt == now
  {
    match filename
    case None => Outcome(s, MissingImage)
    case Some(f) =>
      var card := Card(s.counter, Some(OrEmpty(body.title)), Some(OrEmpty(body.description)),
                       Some(OrEmpty(body.tags)), Upload.ImageUrl(f), now);
      Outcome(State(s.cards + [card], s.counter + 1), Created(card))
  }

  // ---------------------------------------------------------------------
  // PUT /api/cards/:id
  // ---------------------------------------------------------------------

  /** `{ ...card, ...updates }`: the three text fields are always written,
      with `undefined` for a field the client did not send; the image only
      when a file was stored. */
  function Merge(card: Card, body: Fields, filename: Option<string>): (r: Card)
    ensures r.num == card.num && r.createdAt == card.createdAt
    ensures r.title == body.title && r.description == body.description && r.tags == body.tags
    ensures filename.Some? ==> r.imageUrl == Upload.UploadsPrefix + filename.value
    ensures filename.None? ==> r.imageUrl == card.imageUrl
  {
    var merged := card.(title := body.title, description := body.description, tags := body.tags);
    match filename
    case None => merged
    case Some(f) => merged.(imageUrl := Upload.ImageUrl(f))
  }

  /** The update handler once the upload middleware has run. */
  function UpdateCard(s: State, key: string, body: Fields, filename: Option<string>): (r: Outcome)
    ensures FindIndex(s.cards, key).None? ==> r == Outcome(s, NotFound)
    ensures FindIndex(s.cards, key).Some? ==>
      var i := FindIndex(s.cards, key).value;
      && r.state.counter == s.counter
      && |r.state.cards| == |s.cards|
      && (forall j :: 0 <= j < |s.cards| && j != i ==> r.state.cards[j] == s.cards[j])
      && r.state.cards[i] == Merge(s.cards[i], body, filename)
      && r.reply == Updated(r.state.cards[i])
  {
    match FindIndex(s.cards, key)
    case None => Outcome(s, NotFound)
    case Some(i) =>
      var card := Merge(s.cards[i], body, filename);
      Outcome(State(s.cards[i := card], s.counter), Updated(card))
  }

  // ---------------------------------------------------------------------
  // DELETE /api/cards/:id
  // ---------------------------------------------------------------------

  /** `cards.splice(index, 1)` at the first card with id `key`. */
  function DeleteCard(s: State, key: string): (r: Outcome)
    ensures FindIndex(s.cards, key).None? ==> r == Outcome(s, NotFound)
    ensures FindIndex(s.cards, key).Some? ==>
      var i := FindIndex(s.cards, key).value;
      && r.reply == Deleted
      && r.state.counter == s.counter
      && |r.state.cards| == |s.cards| - 1
      && (forall j :: 0 <= j < i ==> r.state.cards[j] == s.cards[j])
      && (forall j :: i <= j < |r.state.cards| ==> r.state.cards[j] == s.cards[j + 1])
  {
    match FindIndex(s.cards, key)
    case None => Outcome(s, NotFound)
    case Some(i) => Outcome(State(s.cards[..i] + s.cards[i + 1..], s.counter), Deleted)
  }

  // ---------------------------------------------------------------------
  // Routes with the upload middleware in front
  // ---------------------------------------------------------------------

  /** POST /api/cards: `upload.single('image')`, then the create handler.
      `uploadClock` is `Date.now()` as multer names the file, `now` the
      later `new Date()` of the handler. */
  function PostCard(s: State, body: Fields, file: Option<Upload.IncomingFile>, uploadClock: nat, now: int): (r: Outcome)
    ensures r.reply.Created? <==> Upload.Receive(file, uploadClock).Stored?
    ensures r.reply.Created? ==>
      && r == CreateCard(s, body, Some(Upload.StoredName(uploadClock, file.value.originalName)), now)
      && r.state.cards == s.cards + [r.reply.card]
      && r.reply.card.imageUrl == Upload.ImageUrl(Upload.StoredName(uploadClock, file.value.originalName))
    ensures !r.reply.Created? ==> r.state == s
    ensures Upload.Receive(file, uploadClock).Rejected? ==>
      r.reply == UploadRejected(Upload.Receive(file, uploadClock).error)
    ensures file.None? || file.value.originalName == "" ==> r.reply == MissingImage
    ensures file.Some? && file.value.originalName != "" && file.value.size > Upload.MaxFileSize
            ==> r.reply.UploadRejected?
    ensures file.Some? && file.value.originalName != ""
            && Upload.FileFilter(file.value.originalName, file.value.mimeType)
            && file.value.size > Upload.MaxFileSize
            ==> r.reply == UploadRejected(Upload.TooLarge)
    ensures file.Some? && file.value.originalName != ""
            && !Upload.FileFilter(file.value.originalName, file.value.mimeType)
            ==> r.reply == UploadRejected(Upload.NotAnImage)
  {
    match Upload.Receive(file, uploadClock)
    case Rejected(e) => Outcome(s, UploadRejected(e))
    case NoFile => CreateCard(s, body, None, now)
    case Stored(f) => CreateCard(s, body, Some(f), now)
  }

  /** PUT /api/cards/:id: `upload.single('image')`, then the update
      handler. A refused upload ends the request before the id is looked
      up. */
  function PutCard(s: State, key: string, body: Fields, file: Option<Upload.IncomingFile>, uploadClock: nat): (r: Outcome)
    ensures Upload.Receive(file, uploadClock).Rejected? ==>
      r.state == s && r.reply == UploadRejected(Upload.Receive(file, uploadClock).error)
    ensures !r.reply.Updated? ==> r.state == s
    ensures r.reply.Updated? <==> FindIndex(s.cards, key).Some? && !Upload.Receive(file, uploadClock).Rejected?
    ensures Upload.Receive(file, uploadClock).NoFile? ==> r == UpdateCard(s, key, body, None)
    ensures Upload.Receive(file, uploadClock).Stored? ==>
      r == UpdateCard(s, key, body, Some(Upload.StoredName(uploadClock, file.value.originalName)))
    ensures r.reply.Updated? && Upload.Receive(file, uploadClock).NoFile? ==>
      r.reply.card.imageUrl == s.cards[FindIndex(s.cards, key).value].imageUrl
    ensures r.reply.Updated? && Upload.Receive(file, uploadClock).Stored? ==>
      r.reply.card.imageUrl == Upload.ImageUrl(Upload.StoredName(uploadClock, file.value.originalName))
  {
    match Upload.Receive(file, uploadClock)
    case Rejected(e) => Outcome(s, UploadRejected(e))
    case NoFile => UpdateCard(s, key, body, None)
    case Stored(f) => UpdateCard(s, key, body, Some(f))
  }
}
