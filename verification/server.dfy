/** The server as a state machine over incoming requests, one at a time:
    Express routes each request to one handler, and the store carries over
    to the next request. */
module Server {
  import opened Wrappers
  import opened Cards
  import opened Api
  import Properties
  import Upload

  /** An `/api/cards` request with the clock readings it will see. */
  datatype Request =
    | List
    | Get(key: string)
    | Post(body: Fields, file: Option<Upload.IncomingFile>, uploadClock: nat, now: int)
    | Put(key: string, body: Fields, file: Option<Upload.IncomingFile>, uploadClock: nat)
    | Delete(key: string)

  function Handle(s: State, req: Request): (r: Outcome)
    ensures r.state.counter == s.counter + (if r.reply.Created? then 1 else 0)
    ensures r.reply.Created? ==> r.reply.card.num == s.counter
  {
    match req
    case List => ListCards(s)
    case Get(key) => GetCard(s, key)
    case Post(body, file, clock, now) => PostCard(s, body, file, clock, now)
    case Put(key, body, file, clock) => PutCard(s, key, body, file, clock)
    case Delete(key) => DeleteCard(s, key)
  }

  /** Every request keeps the store invariant. */
  lemma HandlePreservesValid(s: State, req: Request)
    requires Valid(s)
    ensures Valid(Handle(s, req).state)
  {
    match req
    case List => Properties.ListPreservesValid(s);
    case Get(key) =>
    case Post(body, file, clock, now) =>
      match Upload.Receive(file, clock) {
        case Rejected(e) =>
        case NoFile =>
        case Stored(f) => Properties.CreatePreservesValid(s, body, Some(f), now);
      }
    case Put(key, body, file, clock) =>
      match Upload.Receive(file, clock) {
        case Rejected(e) =>
        case NoFile => Properties.UpdatePreservesValid(s, key, body, None);
        case Stored(f) => Properties.UpdatePreservesValid(s, key, body, Some(f));
      }
    case Delete(key) => Properties.DeletePreservesValid(s, key);
  }

  /** The state after serving `reqs` in order. */
  function Run(s: State, reqs: seq<Request>): (t: State)
    ensures t.counter >= s.counter
    decreases |reqs|
  {
    if |reqs| == 0 then s else Run(Handle(s, reqs[0]).state, reqs[1..])
  }

  /** Serving any sequence of requests keeps the store invariant. */
  lemma {:induction false} RunPreservesValid(s: State, reqs: seq<Request>)
    requires Valid(s)
    ensures Valid(Run(s, reqs))
    decreases |reqs|
  {
    if |reqs| > 0 {
      HandlePreservesValid(s, reqs[0]);
      RunPreservesValid(Handle(s, reqs[0]).state, reqs[1..]);
    }
  }

  /** The numbers of the cards created while serving `reqs`, in order. */
  function Issued(s: State, reqs: seq<Request>): seq<nat>
    decreases |reqs|
  {
    if |reqs| == 0 then []
    else
      var r := Handle(s, reqs[0]);
      (if r.reply.Created? then [r.reply.card.num] else []) + Issued(r.state, reqs[1..])
  }

  /** One step of a run: the first request issues the counter's number or
      nothing, and the rest of the run starts from its state. */
  lemma IssuedStep(s: State, reqs: seq<Request>)
    requires |reqs| > 0
    ensures var r := Handle(s, reqs[0]);
            && Issued(s, reqs) == (if r.reply.Created? then [s.counter] else []) + Issued(r.state, reqs[1..])
            && Run(s, reqs) == Run(r.state, reqs[1..])
            && r.state.counter == s.counter + (if r.reply.Created? then 1 else 0)
  {
  }

  /** Strictly increasing, with every element in `[lo, hi)`. */
  predicate IncreasingWithin(xs: seq<nat>, lo: nat, hi: nat) {
    && (forall i, j :: 0 <= i < j < |xs| ==> xs[i] < xs[j])
    && (forall n :: n in xs ==> lo <= n < hi)
  }

  /** Putting a number below an increasing sequence in front of it keeps
      it increasing. */
  lemma ConsIncreasing(x: nat, rest: seq<nat>, lo: nat, hi: nat)
    requires lo <= x && IncreasingWithin(rest, x + 1, hi) && x < hi
    ensures IncreasingWithin([x] + rest, lo, hi)
  {
    var all := [x] + rest;
    forall i, j | 0 <= i < j < |all|
      ensures all[i] < all[j]
    {
      assert all[j] == rest[j - 1] && all[j] in rest;
      if i > 0 {
        assert all[i] == rest[i - 1];
      }
    }
  }

  /** Ids are issued in strictly increasing order from the counter on, so
      none is ever issued twice, deletes in between notwithstanding. */
  lemma {:induction false} IssuedIncreasing(s: State, reqs: seq<Request>)
    ensures IncreasingWithin(Issued(s, reqs), s.counter, Run(s, reqs).counter)
    decreases |reqs|
  {
    if |reqs| > 0 {
      var r := Handle(s, reqs[0]);
      var rest := Issued(r.state, reqs[1..]);
      var hi := Run(s, reqs).counter;
      IssuedStep(s, reqs);
      IssuedIncreasing(r.state, reqs[1..]);
      if r.reply.Created? {
        ConsIncreasing(s.counter, rest, s.counter, hi);
      } else {
        assert [] + rest == rest;
      }
    }
  }

  /** The first upload into a fresh server creates a card iff the file
      passes the filter and the size limit; that card is numbered 1 and has
      the stored file's URL as its image. */
  lemma FirstPost(f: Upload.IncomingFile, body: Fields, clock: nat, now: int)
    ensures var r := Handle(Init(), Post(body, Some(f), clock, now));
            && (r.reply.Created? <==> Upload.FileFilter(f.originalName, f.mimeType) && f.size <= Upload.MaxFileSize)
            && (r.reply.Created? ==>
                  && r.state.cards == [r.reply.card]
                  && r.reply.card.num == 1
                  && r.reply.card.title == Some(body.title.GetOr(""))
                  && r.reply.card.imageUrl == "/uploads/" + Upload.StoredName(clock, f.originalName))
  {
    var r := Handle(Init(), Post(body, Some(f), clock, now));
    assert r == PostCard(Init(), body, Some(f), clock, now);
    if f.originalName == "" {
      Upload.EmptyNameRefused(f.mimeType);
    }
  }

  /** Listing shows every stored card. */
  lemma ListShows(s: State, i: nat)
    requires i < |s.cards|
    ensures s.cards[i] in Handle(s, List).reply.cards
  {
    var listed := Handle(s, List).reply.cards;
    assert s.cards[i] in multiset(s.cards);
    assert s.cards[i] in multiset(listed);
  }

  /** Deleting a stored card's id succeeds and makes the id unknown. */
  lemma DeleteForgets(s: State, i: nat)
    requires Valid(s) && i < |s.cards|
    ensures Handle(s, Delete(Id(s.cards[i]))).reply == Deleted
    ensures Handle(Handle(s, Delete(Id(s.cards[i]))).state, Get(Id(s.cards[i]))).reply == NotFound
  {
    var key := Id(s.cards[i]);
    var d := Handle(s, Delete(key));
    FindIndexOfNum(s.cards, i);
    assert d == DeleteCard(s, key);
    assert Handle(d.state, Get(key)) == GetCard(d.state, key);
    Properties.DeleteThenGet(s, key);
  }

  /** The walk-through of an image "<stem>.png" (for instance "cat.png",
      with the extension in any letter case) declared as "image/png" and
      titled "Cat": it becomes `card_1` with image
      `/uploads/<clock>-<stem>.png`, the list shows it, and after deleting
      `card_1` a lookup of it fails. */
  lemma PngScenario(stem: string, ext: string, clock: nat, now: int)
    requires |stem| > 0 && forall j :: 0 <= j < |stem| ==> stem[j] != '/'
    requires Upload.Lower(ext) == "png"
    ensures var r := Handle(Init(), Post(Fields(Some("Cat"), None, None),
                                         Some(Upload.IncomingFile(stem + "." + ext, "image/png", 1000)), clock, now));
            && r.reply.Created?
            && Id(r.reply.card) == "card_1"
            && r.reply.card.title == Some("Cat")
            && r.reply.card.imageUrl == "/uploads/" + Upload.StoredName(clock, stem + "." + ext)
            && r.reply.card in Handle(r.state, List).reply.cards
            && Handle(r.state, Delete("card_1")).reply == Deleted
            && Handle(Handle(r.state, Delete("card_1")).state, Get("card_1")).reply == NotFound
  {
    var f := Upload.IncomingFile(stem + "." + ext, "image/png", 1000);
    var body := Fields(Some("Cat"), None, None);
    Upload.PngAccepted(stem, ext);
    FirstPost(f, body, clock, now);
    var r := Handle(Init(), Post(body, Some(f), clock, now));
    Properties.CreatePreservesValid(Init(), body, Some(Upload.StoredName(clock, stem + "." + ext)), now);
    assert Id(r.reply.card) == IdText(1) == "card_1";
    ListShows(r.state, 0);
    DeleteForgets(r.state, 0);
  }
}
