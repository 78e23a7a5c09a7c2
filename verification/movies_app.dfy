/** The movie routes of the HTTP service as pure transitions of the
    in-memory store: each handler takes the store and the request's
    parameters and yields the status, the response body and the new store.
    Writes go through the schema validators first. */
module MoviesApp {
  import opened Wrappers
  import opened Json
  import opened MoviesSchema

  /** A stored movie: the server-assigned id kept beside the validated payload. */
  datatype StoredMovie = StoredMovie(id: string, data: Movie)

  /** The process-wide collection, in insertion order. */
  type Store = seq<StoredMovie>

  const StatusOk: int := 200
  const StatusCreated: int := 201
  const StatusBadRequest: int := 400
  const StatusNotFound: int := 404

  /** The plain-text bodies of the not-found responses. */
  const NotFoundText: string := "Not Found"
  const MovieNotFoundText: string := "Movie not found"

  /** What a handler sends back. */
  datatype Body =
    | Movies(movies: seq<StoredMovie>)
    | One(movie: StoredMovie)
    | Deleted(deleted: StoredMovie)
    | Errors(error: seq<Issue>)
    | Text(text: string)

  /** A handler's outcome: status, response body and the store afterwards. */
  datatype Reply = Reply(status: int, body: Body, store: Store)

  // Lookup by id.

  predicate HasId(s: Store, id: string) {
    exists i :: 0 <= i < |s| && s[i].id == id
  }

  /** `i` is the first position of the store holding `id`. */
  predicate FirstWithId(s: Store, id: string, i: int) {
    && 0 <= i < |s|
    && s[i].id == id
    && forall j :: 0 <= j < i ==> s[j].id != id
  }

  predicate UniqueIds(s: Store) {
    forall i, j :: 0 <= i < |s| && 0 <= j < |s| && s[i].id == s[j].id ==> i == j
  }

  /** Every stored payload satisfies the full schema. */
  predicate ValidStore(s: Store, isUrl: string -> bool) {
    forall i :: 0 <= i < |s| ==> ValidMovie(s[i].data, isUrl)
  }

  /** The position of the first record with the given id (`findIndex`, with
      `None` for its -1). */
  function FindIndex(s: Store, id: string): (r: Option<nat>)
    ensures r.Some? ==> FirstWithId(s, id, r.value)
    ensures r.None? <==> !HasId(s, id)
  {
    if s == [] then None
    else if s[0].id == id then Some(0)
    else
      var k := FindIndex(s[1..], id);
      if k.Some? then Some(k.value + 1) else None
  }

  // Case-insensitive genre matching.

  const SmallLetters: string := "abcdefghijklmnopqrstuvwxyz"

  /** Lower-casing of one character, for ASCII letters only. */
  function LowerChar(c: char): char {
    if 'A' <= c <= 'Z' then (c as int + 32) as char else c
  }

  /** Lower-casing: no capital ASCII letter is left, each capital becomes
      its small letter, and every other character is kept. */
  function Lower(s: string): (r: string)
    ensures |r| == |s|
    ensures forall i :: 0 <= i < |r| ==> !('A' <= r[i] <= 'Z')
    ensures forall i :: 0 <= i < |s| && 'A' <= s[i] <= 'Z' ==> r[i] == SmallLetters[s[i] as int - 'A' as int]
    ensures forall i :: 0 <= i < |s| && !('A' <= s[i] <= 'Z') ==> r[i] == s[i]
  {
    seq(|s|, i requires 0 <= i < |s| => LowerChar(s[i]))
  }

  /** The record lists some genre equal to the query, ignoring case. A
      record listing no genres never matches; one listing the query itself
      always does. */
  predicate MatchesGenre(m: StoredMovie, query: string): (b: bool)
    ensures b ==> |m.data.genre| > 0
    ensures forall i :: 0 <= i < |m.data.genre| && m.data.genre[i] == query ==> b
  {
    exists i :: 0 <= i < |m.data.genre| && Lower(m.data.genre[i]) == Lower(query)
  }

  /** The `some` test of the genre filter. */
  function SomeGenreMatches(gs: seq<string>, query: string): (r: bool)
    ensures r <==> exists i :: 0 <= i < |gs| && Lower(gs[i]) == Lower(query)
  {
    if gs == [] then false
    else Lower(gs[0]) == Lower(query) || SomeGenreMatches(gs[1..], query)
  }

  /** The records whose genres match the query, in store order. */
  function FilterByGenre(s: Store, query: string): (r: Store)
    ensures |r| <= |s|
    ensures forall m :: multiset(r)[m] == if MatchesGenre(m, query) then multiset(s)[m] else 0
  {
    if s == [] then []
    else
      assert s == [s[0]] + s[1..];
      (if SomeGenreMatches(s[0].data.genre, query) then [s[0]] else []) + FilterByGenre(s[1..], query)
  }

  // Handlers.

  /** GET /movies. An absent or empty `genre` query lists the whole store,
      even when it is empty; any other query lists the matching records, or
      answers 404 when none match. */
  function ListMovies(s: Store, genre: Option<string>): (r: Reply)
    ensures r.store == s
    ensures genre.None? || genre.value == "" ==> r.status == StatusOk && r.body == Movies(s)
    ensures genre.Some? && genre.value != "" ==>
      (r.status == StatusOk <==> exists i :: 0 <= i < |s| && MatchesGenre(s[i], genre.value))
    ensures genre.Some? && genre.value != "" && r.status == StatusOk ==>
      r.body == Movies(FilterByGenre(s, genre.value))
    ensures r.status != StatusOk ==> r.status == StatusNotFound && r.body == Text(NotFoundText)
  {
    if genre.Some? && genre.value != "" then
      var filtered := FilterByGenre(s, genre.value);
      if |filtered| > 0 then
        assert filtered[0] in multiset(filtered);
        Reply(StatusOk, Movies(filtered), s)
      else
        assert forall i :: 0 <= i < |s| ==> !MatchesGenre(s[i], genre.value) by {
          forall i | 0 <= i < |s| ensures !MatchesGenre(s[i], genre.value) {
            assert s[i] in multiset(s);
          }
        }
        Reply(StatusNotFound, Text(NotFoundText), s)
    else
      Reply(StatusOk, Movies(s), s)
  }

  /** GET /movies/:id: the first record with the id, or 404. */
  function GetMovie(s: Store, id: string): (r: Reply)
    ensures r.store == s
    ensures r.status == StatusOk <==> HasId(s, id)
    ensures forall i :: FirstWithId(s, id, i) ==> r.body == One(s[i])
    ensures !HasId(s, id) ==> r.status == StatusNotFound && r.body == Text(NotFoundText)
  {
    var k := FindIndex(s, id);
    if k.Some? then
      assert forall i :: FirstWithId(s, id, i) ==> i == k.value;
      Reply(StatusOk, One(s[k.value]), s)
    else
      Reply(StatusNotFound, Text(NotFoundText), s)
  }

  /** POST /movies. `newId` stands for the random UUID the handler draws.
      An invalid body answers 400 with the issues; a valid one is appended
      under the new id and the whole store is sent back. */
  function CreateMovie(s: Store, body: Value, newId: string, isUrl: string -> bool): (r: Reply)
    ensures ValidateMovie(body, isUrl).Failure? ==>
      r == Reply(StatusBadRequest, Errors(ValidateMovie(body, isUrl).error), s)
    ensures ValidateMovie(body, isUrl).Success? ==>
      && r.status == StatusCreated
      && |r.store| == |s| + 1
      && r.store[..|s|] == s
      && r.store[|s|] == StoredMovie(newId, ValidateMovie(body, isUrl).value)
      && r.body == Movies(r.store)
    ensures ValidStore(s, isUrl) ==> ValidStore(r.store, isUrl)
    ensures UniqueIds(s) && !HasId(s, newId) ==> UniqueIds(r.store)
  {
    var result := ValidateMovie(body, isUrl);
    if result.Failure? then
      Reply(StatusBadRequest, Errors(result.error), s)
    else
      var store := s + [StoredMovie(newId, result.value)];
      AppendKeepsInvariants(s, StoredMovie(newId, result.value), isUrl);
      Reply(StatusCreated, Movies(store), store)
  }

  /** Appending a valid record keeps a store valid, and appending one with a
      fresh id keeps its ids unique. */
  lemma AppendKeepsInvariants(s: Store, x: StoredMovie, isUrl: string -> bool)
    ensures ValidStore(s, isUrl) && ValidMovie(x.data, isUrl) ==> ValidStore(s + [x], isUrl)
    ensures UniqueIds(s) && !HasId(s, x.id) ==> UniqueIds(s + [x])
  {
    var t := s + [x];
    assert forall j :: 0 <= j < |s| ==> t[j] == s[j];
    assert t[|s|] == x;
  }

  /** The object spread of an update over a stored payload: field by field,
      the merged payload serialises to the update's value where the update
      supplies one and to the stored value elsewhere. */
  function Merge(m: Movie, p: PartialMovie): (r: Movie)
    ensures forall f ::
      FieldValue(r, f) == if PartialFieldValue(p, f).Some? then PartialFieldValue(p, f) else FieldValue(m, f)
  {
    Movie(
      if p.title.Some? then p.title.value else m.title,
      if p.year.Some? then p.year.value else m.year,
      if p.director.Some? then p.director.value else m.director,
      if p.duration.Some? then p.duration.value else m.duration,
      if p.rate.Some? then p.rate.value else m.rate,
      if p.poster.Some? then p.poster else m.poster,
      if p.genre.Some? then p.genre.value else m.genre)
  }

  /** Every rule is per field, so merging a valid update into a valid payload
      gives a valid payload. */
  lemma MergePreservesValidity(m: Movie, p: PartialMovie, isUrl: string -> bool)
    requires ValidMovie(m, isUrl) && ValidPartial(p, isUrl)
    ensures ValidMovie(Merge(m, p), isUrl)
  {
  }

  /** The JSON value field `f` takes after patching `m` with object `o`: the
      supplied value if `o` has the key, the stored one otherwise. */
  function PatchedValue(o: map<string, Value>, m: Movie, f: Field): Option<Value> {
    if Key(f) in o then Some(o[Key(f)]) else FieldValue(m, f)
  }

  /** PATCH /movies/:id. The body is validated before the id is looked up, so
      an invalid body answers 400 whatever the id. A known id has its first
      record replaced in place by the merge; the id and every other position
      stay as they were. */
  function PatchMovie(s: Store, id: string, body: Value, isUrl: string -> bool): (r: Reply)
    ensures ValidatePartialMovie(body, isUrl).Failure? ==>
      r == Reply(StatusBadRequest, Errors(ValidatePartialMovie(body, isUrl).error), s)
    ensures ValidatePartialMovie(body, isUrl).Success? && !HasId(s, id) ==>
      r == Reply(StatusNotFound, Text(MovieNotFoundText), s)
    ensures ValidatePartialMovie(body, isUrl).Success? ==> forall i :: FirstWithId(s, id, i) ==>
      && r.status == StatusCreated
      && |r.store| == |s|
      && (forall j :: 0 <= j < |s| && j != i ==> r.store[j] == s[j])
      && r.store[i].id == s[i].id
      && (forall f :: FieldValue(r.store[i].data, f) == PatchedValue(body.fields, s[i].data, f))
      && r.body == One(r.store[i])
    ensures |r.store| == |s| && forall j :: 0 <= j < |s| ==> r.store[j].id == s[j].id
    ensures ValidStore(s, isUrl) ==> ValidStore(r.store, isUrl)
  {
    var result := ValidatePartialMovie(body, isUrl);
    if result.Failure? then
      Reply(StatusBadRequest, Errors(result.error), s)
    else
      var k := FindIndex(s, id);
      if k.None? then
        Reply(StatusNotFound, Text(MovieNotFoundText), s)
      else
        var i := k.value;
        var updated := StoredMovie(s[i].id, Merge(s[i].data, result.value));
        assert forall f :: FieldValue(updated.data, f) == PatchedValue(body.fields, s[i].data, f);
        assert ValidStore(s, isUrl) ==> ValidMovie(updated.data, isUrl) by {
          if ValidStore(s, isUrl) {
            MergePreservesValidity(s[i].data, result.value, isUrl);
          }
        }
        assert forall j :: FirstWithId(s, id, j) ==> j == i;
        var store := s[i := updated];
        Reply(StatusCreated, One(updated), store)
  }

  /** DELETE /movies/:id. A known id has its first record spliced out and
      sent back; the rest keep their order. */
  function DeleteMovie(s: Store, id: string): (r: Reply)
    ensures !HasId(s, id) ==> r == Reply(StatusNotFound, Text(MovieNotFoundText), s)
    ensures forall i :: FirstWithId(s, id, i) ==>
      && r.status == StatusOk
      && r.body == Deleted(s[i])
      && |r.store| == |s| - 1
      && (forall j :: 0 <= j < i ==> r.store[j] == s[j])
      && (forall j :: i <= j < |r.store| ==> r.store[j] == s[j + 1])
    ensures forall m :: m in r.store ==> m in s
    ensures UniqueIds(s) ==> UniqueIds(r.store) && !HasId(r.store, id)
  {
    var k := FindIndex(s, id);
    if k.None? then
      Reply(StatusNotFound, Text(MovieNotFoundText), s)
    else
      var i := k.value;
      assert forall j :: FirstWithId(s, id, j) ==> j == i;
      RemoveKeepsUniqueIds(s, i);
      Reply(StatusOk, Deleted(s[i]), RemoveAt(s, i))
  }

  /** The store without position `i`, the later records moved up by one. */
  function RemoveAt(s: Store, i: nat): (r: Store)
    requires i < |s|
    ensures |r| == |s| - 1
    ensures forall j :: 0 <= j < i ==> r[j] == s[j]
    ensures forall j :: i <= j < |r| ==> r[j] == s[j + 1]
    ensures forall m :: m in r ==> m in s
  {
    s[..i] + s[i + 1..]
  }

  /** Removing a record from a store with unique ids keeps the ids unique
      and leaves no record with the removed id. */
  lemma RemoveKeepsUniqueIds(s: Store, i: nat)
    requires i < |s|
    ensures UniqueIds(s) ==> UniqueIds(RemoveAt(s, i)) && !HasId(RemoveAt(s, i), s[i].id)
  {
    var r := RemoveAt(s, i);
    if !UniqueIds(s) { return; }
    forall a, b | 0 <= a < |r| && 0 <= b < |r| && r[a].id == r[b].id ensures a == b {
      var a' := if a < i then a else a + 1;
      var b' := if b < i then b else b + 1;
      assert r[a] == s[a'] && r[b] == s[b'];
    }
    forall a | 0 <= a < |r| ensures r[a].id != s[i].id {
      var a' := if a < i then a else a + 1;
      assert r[a] == s[a'];
    }
  }

  /** A request to one of the movie routes. */
  datatype Request =
    | List(genre: Option<string>)
    | Get(id: string)
    | Create(body: Value, newId: string)
    | Patch(id: string, body: Value)
    | Delete(id: string)

  /** Routes a request to its handler. */
  function Handle(s: Store, req: Request, isUrl: string -> bool): (r: Reply)
    ensures r.status in {StatusOk, StatusCreated, StatusBadRequest, StatusNotFound}
    ensures req.List? || req.Get? ==> r.store == s
    ensures |s| - 1 <= |r.store| <= |s| + 1
    ensures ValidStore(s, isUrl) ==> ValidStore(r.store, isUrl)
    ensures UniqueIds(s) && (req.Create? ==> !HasId(s, req.newId)) ==> UniqueIds(r.store)
  {
    match req
    case List(genre) => ListMovies(s, genre)
    case Get(id) => GetMovie(s, id)
    case Create(body, newId) => CreateMovie(s, body, newId, isUrl)
    case Patch(id, body) => PatchMovie(s, id, body, isUrl)
    case Delete(id) => DeleteMovie(s, id)
  }
}
