/** The cache path of the API handler (`HandleRequestThrow` in
    ton-http-api/handler_api_v2.cpp) over a cache that may forget any entry at
    any time and finds an entry by hash and equality of requests. */
module ResponseCache {
  import opened Results
  import opened RequestKey

  /** A JSON answer: its "@extra" member, if any, and all the rest. */
  datatype Body = Body(extra: Option<string>, rest: string) {
    function MarkedAsCached(): Body {
      Body(Some((if extra.Some? then extra.value else "") + ":c"), rest)
    }
  }

  /** What the worker made of a request. */
  datatype Produced = Produced(isOk: bool, errorCode: int, ttl: int, body: Body) {
    function Status(): int {
      var code := if isOk then 200 else errorCode;
      if code == 0 || code == -3 then 500 else code
    }
  }

  /** One answered request; `produced` is None when it was answered from the cache. */
  datatype Served = Served(request: Request, produced: Option<Produced>, status: int, body: Body)

  datatype Entry = Entry(key: Request, value: Body)

  type Hash = Request -> int

  /** How the cache finds an entry: by hash, then by equality. */
  predicate SameKey(hash: Hash, a: Request, b: Request) { hash(a) == hash(b) && Equals(a, b) }

  /** Entry `j` of the history stored `body` for a request with the key of `request`. */
  ghost predicate StoredAt(hash: Hash, history: seq<Served>, j: int, request: Request, body: Body) {
    && 0 <= j < |history| && history[j].produced.Some?
    && history[j].produced.value.isOk && history[j].produced.value.ttl > 0
    && history[j].produced.value.body == body && SameKey(hash, history[j].request, request)
  }

  ghost predicate Stored(hash: Hash, history: seq<Served>, request: Request, body: Body) {
    exists j :: StoredAt(hash, history, j, request, body)
  }

  ghost predicate HitComesFrom(hash: Hash, history: seq<Served>, k: int, j: int)
    requires 0 <= k < |history|
  {
    && 0 <= j < k && history[j].produced.Some?
    && StoredAt(hash, history, j, history[k].request, history[j].produced.value.body)
    && history[k].body == history[j].produced.value.body.MarkedAsCached() && history[k].status == 200
  }

  /** Every hit repeats an earlier stored answer, and every miss is answered
      with what was produced. */
  ghost predicate GoodHistory(hash: Hash, history: seq<Served>) {
    forall k | 0 <= k < |history| ::
      match history[k].produced
      case None => exists j :: HitComesFrom(hash, history, k, j)
      case Some(p) => history[k].body == p.body && history[k].status == p.Status()
  }

  class Handler {
    const hash: Hash
    var entries: seq<Entry>
    ghost var history: seq<Served>

    ghost predicate Valid()
      reads this
    {
      && GoodHistory(hash, history)
      && forall i | 0 <= i < |entries| :: Stored(hash, history, entries[i].key, entries[i].value)
    }

    constructor (hash: Hash)
      ensures Valid() && history == [] && this.hash == hash
    {
      this.hash := hash;
      entries, history := [], [];
    }

    predicate Finds(i: int, request: Request)
      reads this
    {
      0 <= i < |entries| && SameKey(hash, entries[i].key, request)
    }

    /** Entries expire or are pushed out. */
    method Evict()
      requires Valid()
      modifies this`entries
      ensures Valid() && forall e | e in entries :: e in old(entries)
    {
      if entries != [] {
        var i :| 0 <= i < |entries|;
        entries := entries[..i] + entries[i + 1..];
      }
    }

    method Get(request: Request) returns (r: Option<Body>)
      ensures r.Some? ==> exists i :: Finds(i, request) && entries[i].value == r.value
      ensures r.None? ==> forall i :: !Finds(i, request)
    {
      r := None;
      for i := 0 to |entries|
        invariant r.Some? ==> exists k :: Finds(k, request) && entries[k].value == r.value
        invariant r.None? ==> forall k | 0 <= k < i :: !Finds(k, request)
      {
        EqualsDecidesSameRequest(entries[i].key, request);
        if hash(entries[i].key) == hash(request) {
          var same := CompareRequests(entries[i].key, request);
          if same {
            assert Finds(i, request);
            r := Some(entries[i].value);
          }
        }
      }
    }

    /** The entry found for the request so far, if any, is replaced. */
    method Put(request: Request, value: Body)
      modifies this`entries
      ensures entries != [] && entries[|entries| - 1] == Entry(request, value)
      ensures forall i :: Finds(i, request) <==> i == |entries| - 1
      ensures forall i | 0 <= i < |entries| - 1 :: entries[i] in old(entries)
      ensures forall e | e in old(entries) && !SameKey(hash, e.key, request) :: e in entries
    {
      EqualsIsEquivalence(request, request, request);
      var kept: seq<Entry> := [];
      for i := 0 to |entries|
        invariant entries == old(entries)
        invariant forall e | e in kept :: e in entries && !SameKey(hash, e.key, request)
        invariant forall k | 0 <= k < i ::
                    SameKey(hash, entries[k].key, request) || entries[k] in kept
      {
        var same := CompareRequests(entries[i].key, request);
        EqualsDecidesSameRequest(entries[i].key, request);
        if !(hash(entries[i].key) == hash(request) && same) {
          kept := kept + [entries[i]];
        }
      }
      entries := kept + [Entry(request, value)];
    }

    /** The history has one entry more, for this request. */
    twostate predicate Serves(request: Request, produced: Option<Produced>, status: int, body: Body)
      reads this
    {
      history == old(history) + [Served(request, produced, status, body)]
    }

    /** The first part of `HandleRequestThrow`: the lookup, and on a hit the answer. */
    method Lookup(request: Request) returns (r: Option<(int, Body)>)
      requires Valid()
      modifies this`history
      ensures Valid()
      ensures r.Some? <==> exists i :: Finds(i, request)
      ensures r.Some? ==> exists i :: Finds(i, request) && r.value == (200, entries[i].value.MarkedAsCached())
      ensures if r.Some? then Serves(request, None, r.value.0, r.value.1) else history == old(history)
    {
      var cached := Get(request);
      if cached.None? {
        return None;
      }
      var status, body := 200, cached.value.MarkedAsCached();
      ghost var i :| Finds(i, request) && entries[i].value == cached.value;
      ghost var j :| StoredAt(hash, history, j, entries[i].key, entries[i].value);
      EqualsIsEquivalence(history[j].request, entries[i].key, request);
      ghost var before := history;
      history := history + [Served(request, None, status, body)];
      assert HitComesFrom(hash, history, |before|, j);
      HistoryGrows(hash, before, history);
      EntriesStay(hash, before, history);
      assert Finds(i, request);
      return Some((status, body));
    }

    /** The rest, after a miss and whatever other requests did meanwhile: the
        answer from what the worker produced, and its storing. */
    method Complete(request: Request, produced: Produced) returns (status: int, body: Body)
      requires Valid()
      modifies this
      ensures Valid() && Serves(request, Some(produced), status, body)
      ensures body == produced.body
      ensures status == if produced.isOk then 200
                        else if produced.errorCode == 0 || produced.errorCode == -3 then 500
                        else produced.errorCode
      ensures if produced.isOk && produced.ttl > 0 then
                && entries != [] && entries[|entries| - 1] == Entry(request, body)
                && forall i :: Finds(i, request) <==> i == |entries| - 1
              else entries == old(entries)
    {
      status, body := produced.Status(), produced.body;
      ghost var before := history;
      history := history + [Served(request, Some(produced), status, body)];
      HistoryGrows(hash, before, history);
      EntriesStay(hash, before, history);
      if produced.isOk && produced.ttl > 0 {
        EqualsIsEquivalence(request, request, request);
        assert StoredAt(hash, history, |before|, request, body);
        ghost var held := entries;
        Put(request, body);
        forall i | 0 <= i < |entries|
          ensures Stored(hash, history, entries[i].key, entries[i].value)
        {
          if i < |entries| - 1 {
            var k :| 0 <= k < |held| && held[k] == entries[i];
          }
        }
      }
    }

    /** One request from lookup to answer, with other requests in between:
        `others` are looked up and completed while the worker produces, in any
        order, and entries may vanish. */
    method HandleRequest(request: Request, produced: Produced, others: seq<(Request, Option<Produced>)>)
      returns (status: int, body: Body)
      requires Valid()
      modifies this
      ensures Valid() && old(history) <= history
      ensures exists k :: && |old(history)| <= k < |history| && history[k].request == request
                          && history[k].status == status && history[k].body == body
                          && (history[k].produced.None? || history[k].produced == Some(produced))
    {
      var hit := Lookup(request);
      if hit.Some? {
        assert history[|old(history)|].request == request;
        return hit.value.0, hit.value.1;
      }
      for i := 0 to |others|
        invariant Valid() && old(history) <= history
      {
        var (other, result) := others[i];
        if result.None? {
          var r := Lookup(other);
        } else {
          var s, b := Complete(other, result.value);
        }
        Evict();
      }
      ghost var before := history;
      status, body := Complete(request, produced);
      assert history[|before|].request == request;
    }
  }

  lemma {:induction false} EntriesStay(hash: Hash, before: seq<Served>, after: seq<Served>)
    requires before <= after
    ensures forall request, body | Stored(hash, before, request, body) :: Stored(hash, after, request, body)
  {
    forall request, body | Stored(hash, before, request, body)
      ensures Stored(hash, after, request, body)
    {
      var j :| StoredAt(hash, before, j, request, body);
      assert StoredAt(hash, after, j, request, body);
    }
  }

  lemma {:induction false} HistoryGrows(hash: Hash, before: seq<Served>, after: seq<Served>)
    requires before <= after && |after| == |before| + 1 && GoodHistory(hash, before)
    requires var s := after[|before|];
             match s.produced
             case None => exists j :: HitComesFrom(hash, after, |before|, j)
             case Some(p) => s.body == p.body && s.status == p.Status()
    ensures GoodHistory(hash, after)
  {
    forall k | 0 <= k < |after|
      ensures match after[k].produced
              case None => exists j :: HitComesFrom(hash, after, k, j)
              case Some(p) => after[k].body == p.body && after[k].status == p.Status()
    {
      if k < |before| && before[k].produced.None? {
        var j :| HitComesFrom(hash, before, k, j);
        assert HitComesFrom(hash, after, k, j);
      }
    }
  }

  /** An earlier answer with the same methods and the same argument values. */
  ghost predicate SameQuestion(a: Request, b: Request) {
    a.httpMethod == b.httpMethod && a.apiMethod == b.apiMethod && forall name :: a.GetArg(name) == b.GetArg(name)
  }

  /** Entry `k` of the history, a hit, returns the body that was produced, from
      an ok answer with a positive time to live, for an earlier request with the
      same methods and the same `GetArg` answers; only ":c" is added to
      "@extra", and only once, however often the entry is hit. */
  ghost predicate Transparent(history: seq<Served>, k: nat)
    requires k < |history|
  {
    exists j ::
      && 0 <= j < k && history[j].produced.Some?
      && history[j].produced.value.isOk && history[j].produced.value.ttl > 0
      && SameQuestion(history[j].request, history[k].request)
      && history[k].status == 200
      && history[k].body.rest == history[j].body.rest
      && history[k].body.extra == Some((if history[j].body.extra.Some? then history[j].body.extra.value else "") + ":c")
  }

  ghost predicate IsHit(hash: Hash, history: seq<Served>, k: nat, request: Request) {
    GoodHistory(hash, history) && k < |history| && history[k].produced.None? && history[k].request == request
  }

  /** Hits of a request whose arguments have one value each, once or several
      times, are transparent with any hash ... */
  lemma {:induction false} HitsAreTransparent(hash: Hash, history: seq<Served>, k: nat)
    requires k < |history| && IsHit(hash, history, k, history[k].request) && history[k].request.Uniform()
    ensures Transparent(history, k)
  {
    var j :| HitComesFrom(hash, history, k, j);
    EqualsIsEquivalence(history[j].request, history[k].request, history[k].request);
    EqualUniformRequestsAgree(history[k].request, history[j].request);
    assert history[j].body == history[j].produced.value.body;
  }

  /** ... and of no other request with every hash: all hits of a request in all
      runs with all hashes are transparent exactly when it is of that kind. */
  lemma {:induction false} HitsAreTransparentForEveryHash(request: Request)
    ensures (forall hash: Hash, history, k: nat | IsHit(hash, history, k, request) :: Transparent(history, k))
       <==> request.Uniform()
  {
    if request.Uniform() {
      forall hash: Hash, history, k: nat | IsHit(hash, history, k, request)
        ensures Transparent(history, k)
      {
        HitsAreTransparent(hash, history, k);
      }
    } else {
      var name, i := AnotherValue(request);
      FrontedIsEqual(request, name, i);
      var constant: Hash := r => 0;
      OpaqueHit(constant, Fronted(request, name, i), request, name);
    }
  }

  /** The hash of the code is a function of the key's text. */
  ghost predicate HashesText(hash: Hash) {
    forall a, b :: SameText(a, b) ==> hash(a) == hash(b)
  }

  /** Different texts have different hashes. */
  ghost predicate NoCollisions(hash: Hash) {
    forall a, b :: hash(a) == hash(b) ==> SameText(a, b)
  }

  /** Cache transparency with the code's key: as long as no two texts collide,
      every hit of a request without commas in its values, however many they
      are, is transparent ... */
  lemma {:induction false} CommaFreeHitsAreTransparent(hash: Hash, history: seq<Served>, k: nat)
    requires NoCollisions(hash) && k < |history| && IsHit(hash, history, k, history[k].request)
    requires history[k].request.CommaFree()
    ensures Transparent(history, k)
  {
    CommaFreeReadsOneWay(history[k].request);
    TextHitIsTransparent(hash, history, k);
  }

  lemma {:induction false} TextHitIsTransparent(hash: Hash, history: seq<Served>, k: nat)
    requires NoCollisions(hash) && k < |history| && IsHit(hash, history, k, history[k].request)
    requires history[k].request.ReadsOneWay()
    ensures Transparent(history, k)
  {
    var j :| HitComesFrom(hash, history, k, j);
    var a, b := history[k].request, history[j].request;
    EqualsIsEquivalence(b, a, a);
    assert hash(a) == hash(b) ==> SameText(a, b);
    OneKeyAnswersAlikeExactlyWhen(a);
    assert history[j].body == history[j].produced.value.body;
  }

  /** ... and exactly when every hit of a request in every run is: when no
      reordering of an argument's values reads the same and begins otherwise. */
  lemma {:induction false} TextHitsAreTransparentExactlyWhen(hash: Hash, request: Request)
    requires HashesText(hash) && NoCollisions(hash)
    ensures (forall history, k: nat | IsHit(hash, history, k, request) :: Transparent(history, k))
       <==> request.ReadsOneWay()
  {
    if request.ReadsOneWay() {
      forall history, k: nat | IsHit(hash, history, k, request)
        ensures Transparent(history, k)
      {
        TextHitIsTransparent(hash, history, k);
      }
    } else {
      var name, other := AnotherReading(request);
      var b := request.SetArgVector(name, other);
      OneTextIsOneKey(hash, request, name, other);
      assert b.GetArg(name) == other[0];
      OpaqueHit(hash, b, request, name);
    }
  }

  lemma {:induction false} OneTextIsOneKey(hash: Hash, request: Request, name: string, other: seq<string>)
    requires HashesText(hash) && name in request.args && IsReading(request.args[name], other)
    ensures SameKey(hash, request.SetArgVector(name, other), request)
  {
    ReadingIsOneKey(request, name, other);
  }

  /** What is stored for one request of a key answers another one of that key,
      which may ask for something else. */
  lemma {:induction false} OpaqueHit(hash: Hash, other: Request, request: Request, name: string)
    requires SameKey(hash, other, request) && other.GetArg(name) != request.GetArg(name)
    ensures var body := Body(None, "");
            var history := [Served(other, Some(Produced(true, 0, 1, body)), 200, body),
                            Served(request, None, 200, body.MarkedAsCached())];
            IsHit(hash, history, 1, request) && !Transparent(history, 1)
  {
    var body := Body(None, "");
    var history := [Served(other, Some(Produced(true, 0, 1, body)), 200, body),
                    Served(request, None, 200, body.MarkedAsCached())];
    assert HitComesFrom(hash, history, 1, 0);
    assert history[0].request.GetArg(name) != history[1].request.GetArg(name);
  }

  const FIRST_QUESTION := Request("GET", "m", map["x" := ["a", "a,a"]], false)
  const SECOND_QUESTION := Request("GET", "m", map["x" := ["a,a", "a"]], false)

  lemma {:induction false} TwoQuestionsOneKey(hash: Hash)
    requires HashesText(hash)
    ensures SameKey(hash, FIRST_QUESTION, SECOND_QUESTION)
    ensures FIRST_QUESTION.GetArg("x") != SECOND_QUESTION.GetArg("x")
  {
    CommasCanMakeOneKeyOfTwo();
    assert IsKeyOrder(["x"], FIRST_QUESTION) && IsKeyOrder(["x"], SECOND_QUESTION);
    assert SameText(FIRST_QUESTION, SECOND_QUESTION);
  }

  /** A run of the cache in which that happens, with any hash of the text: the
      answer produced for x = "a", "a,a" is given to x = "a,a", "a". */
  method OneEntryForTwoQuestions(hash: Hash, body: Body) returns (r: Option<(int, Body)>, handler: Handler)
    requires HashesText(hash)
    ensures handler.Valid() && FIRST_QUESTION.GetArg("x") != SECOND_QUESTION.GetArg("x")
    ensures handler.history == [Served(FIRST_QUESTION, Some(Produced(true, 0, 1, body)), 200, body),
                                Served(SECOND_QUESTION, None, 200, body.MarkedAsCached())]
    ensures r == Some((200, body.MarkedAsCached()))
  {
    TwoQuestionsOneKey(hash);
    r, handler := OneEntryForTwo(hash, FIRST_QUESTION, SECOND_QUESTION, body);
  }

  lemma {:induction false} FindsAlike(hash: Hash, key: Request, a: Request, b: Request)
    requires SameKey(hash, a, b)
    ensures SameKey(hash, key, a) <==> SameKey(hash, key, b)
  {
    EqualsIsEquivalence(a, b, a);
    EqualsIsEquivalence(key, a, b);
    EqualsIsEquivalence(key, b, a);
  }

  /** One request is completed and then another one of its key looked up. */
  method OneEntryForTwo(hash: Hash, first: Request, second: Request, body: Body)
    returns (r: Option<(int, Body)>, handler: Handler)
    requires SameKey(hash, first, second)
    ensures fresh(handler) && handler.Valid()
    ensures handler.history == [Served(first, Some(Produced(true, 0, 1, body)), 200, body),
                                Served(second, None, 200, body.MarkedAsCached())]
    ensures r == Some((200, body.MarkedAsCached()))
  {
    handler := new Handler(hash);
    var status, answer := handler.Complete(first, Produced(true, 0, 1, body));
    ghost var stored := handler.history;
    assert stored == [Served(first, Some(Produced(true, 0, 1, body)), 200, body)];
    ghost var last := |handler.entries| - 1;
    forall i | 0 <= i <= last
      ensures SameKey(hash, handler.entries[i].key, second) <==> i == last
    {
      FindsAlike(hash, handler.entries[i].key, first, second);
      assert handler.Finds(i, first) <==> i == last;
    }
    r := handler.Lookup(second);
    assert handler.Finds(last, second);
    assert handler.history == stored + [Served(second, None, 200, body.MarkedAsCached())];
  }
}
