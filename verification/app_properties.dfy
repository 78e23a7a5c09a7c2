/** Properties of the movie routes that relate several calls: the genre
    filter's order and case-insensitivity, and how create, patch and delete
    compose. */
module AppProperties {
  import opened Wrappers
  import opened Json
  import opened MoviesSchema
  import opened MoviesApp
  import SchemaProperties

  /** `r` is `s` with some elements left out, the rest in their order. */
  ghost predicate IsSubsequence<T>(r: seq<T>, s: seq<T>)
    decreases |s|
  {
    if r == [] then true
    else if s == [] then false
    else (r[0] == s[0] && IsSubsequence(r[1..], s[1..])) || IsSubsequence(r, s[1..])
  }

  /** The genre filter keeps the store's order. */
  lemma {:induction false} FilterIsSubsequence(s: Store, query: string)
    ensures IsSubsequence(FilterByGenre(s, query), s)
  {
    if s != [] {
      var r := FilterByGenre(s, query);
      var rest := FilterByGenre(s[1..], query);
      FilterIsSubsequence(s[1..], query);
      if SomeGenreMatches(s[0].data.genre, query) {
        assert r == [s[0]] + rest;
        assert r[1..] == rest;
      } else {
        assert r == rest;
      }
    }
  }

  /** The genre filter returns exactly the matching records. */
  lemma FilterMembership(s: Store, query: string)
    ensures forall m :: m in FilterByGenre(s, query) <==> m in s && MatchesGenre(m, query)
  {
    var r := FilterByGenre(s, query);
    forall m ensures m in r <==> m in s && MatchesGenre(m, query) {
      assert m in r <==> multiset(r)[m] > 0;
      assert m in s <==> multiset(s)[m] > 0;
    }
  }

  /** Lower-casing twice is lower-casing once. */
  lemma LowerIdempotent(s: string)
    ensures Lower(Lower(s)) == Lower(s)
  {
  }

  /** The filter depends on the query only through its lower-cased form. */
  lemma {:induction false} FilterCaseInsensitive(s: Store, a: string, b: string)
    requires Lower(a) == Lower(b)
    ensures FilterByGenre(s, a) == FilterByGenre(s, b)
  {
    if s != [] {
      FilterCaseInsensitive(s[1..], a, b);
      assert SomeGenreMatches(s[0].data.genre, a) == SomeGenreMatches(s[0].data.genre, b);
    }
  }

  /** Two non-empty genre queries that differ only in letter case get the same reply. */
  lemma ListCaseInsensitive(s: Store, a: string, b: string)
    requires a != "" && b != "" && Lower(a) == Lower(b)
    ensures ListMovies(s, Some(a)) == ListMovies(s, Some(b))
  {
    FilterCaseInsensitive(s, a, b);
  }

  /** "action" and "Action" are the same query. */
  lemma ActionQueriesAgree(s: Store)
    ensures ListMovies(s, Some("action")) == ListMovies(s, Some("Action"))
  {
    assert Lower("action") == Lower("Action");
    ListCaseInsensitive(s, "action", "Action");
  }

  /** An empty store lists as 200 with no records, but any genre query on it
      answers 404. */
  lemma EmptyStoreAsymmetry(query: string)
    requires query != ""
    ensures ListMovies([], None) == Reply(StatusOk, Movies([]), [])
    ensures ListMovies([], Some(query)) == Reply(StatusNotFound, Text(NotFoundText), [])
  {
  }

  /** A store holding one drama: "Comedy" finds nothing, "drama" finds it. */
  lemma DramaExample(id: string, m: Movie)
    requires m.genre == ["Drama"]
    ensures ListMovies([StoredMovie(id, m)], Some("Comedy")).status == StatusNotFound
    ensures ListMovies([StoredMovie(id, m)], Some("drama")) == Reply(StatusOk, Movies([StoredMovie(id, m)]), [StoredMovie(id, m)])
  {
    var s := [StoredMovie(id, m)];
    assert Lower("Drama") == Lower("drama");
    assert s[0].data.genre[0] == "Drama";
    assert MatchesGenre(s[0], "drama");
    assert Lower("Drama")[0] != Lower("Comedy")[0];
    assert !MatchesGenre(s[0], "Comedy");
    FilterMembership(s, "drama");
    var r := FilterByGenre(s, "drama");
    assert r == s by {
      assert |r| <= 1 && s[0] in r;
    }
  }

  /** After a successful create with a fresh id, looking the id up finds the new record. */
  lemma GetAfterCreate(s: Store, body: Value, newId: string, isUrl: string -> bool)
    requires ValidateMovie(body, isUrl).Success? && !HasId(s, newId)
    ensures GetMovie(CreateMovie(s, body, newId, isUrl).store, newId)
      == Reply(StatusOk, One(StoredMovie(newId, ValidateMovie(body, isUrl).value)), CreateMovie(s, body, newId, isUrl).store)
  {
    var t := CreateMovie(s, body, newId, isUrl).store;
    assert forall j :: 0 <= j < |s| ==> t[j] == s[j];
    assert FirstWithId(t, newId, |s|);
  }

  /** Deleting a freshly created record restores the store: delete undoes create. */
  lemma DeleteUndoesCreate(s: Store, body: Value, newId: string, isUrl: string -> bool)
    requires ValidateMovie(body, isUrl).Success? && !HasId(s, newId)
    ensures DeleteMovie(CreateMovie(s, body, newId, isUrl).store, newId).store == s
  {
    var t := CreateMovie(s, body, newId, isUrl).store;
    assert forall j :: 0 <= j < |s| ==> t[j] == s[j];
    assert FirstWithId(t, newId, |s|);
    var u := DeleteMovie(t, newId).store;
    assert |u| == |s|;
    assert forall j :: 0 <= j < |s| ==> u[j] == s[j];
  }

  /** With unique ids, deleting the same id twice answers 404 the second time
      and leaves the store alone. */
  lemma DeleteTwiceNotFound(s: Store, id: string)
    requires UniqueIds(s) && HasId(s, id)
    ensures DeleteMovie(s, id).status == StatusOk
    ensures DeleteMovie(DeleteMovie(s, id).store, id)
      == Reply(StatusNotFound, Text(MovieNotFoundText), DeleteMovie(s, id).store)
  {
    var i :| 0 <= i < |s| && s[i].id == id;
    var k := FindIndex(s, id);
    assert FirstWithId(s, id, k.value);
  }

  /** A successful patch at the first position holding the id, unpacked. */
  lemma PatchAt(s: Store, id: string, body: Value, i: nat, isUrl: string -> bool)
    requires ValidatePartialMovie(body, isUrl).Success? && FirstWithId(s, id, i)
    ensures var r := PatchMovie(s, id, body, isUrl);
      && r.status == StatusCreated
      && r.body == One(r.store[i])
      && |r.store| == |s|
      && r.store[i].id == s[i].id
      && (forall j :: 0 <= j < |s| && j != i ==> r.store[j] == s[j])
      && (forall f :: FieldValue(r.store[i].data, f) == PatchedValue(body.fields, s[i].data, f))
  {
  }

  /** A store that differs from `s` only at position `i`, where it holds `s[i]`'s
      id with payload `m`, is `s` with that one position replaced. */
  lemma ReplacedAt(s: Store, t: Store, i: nat, m: Movie)
    requires i < |s| == |t|
    requires forall j :: 0 <= j < |s| && j != i ==> t[j] == s[j]
    requires t[i] == StoredMovie(s[i].id, m)
    ensures t == s[i := StoredMovie(s[i].id, m)]
  {
  }

  /** Patching a payload with only a year serialises like the payload with
      its year replaced. */
  lemma YearOnlyPatchedValues(m: Movie, y: int)
    ensures forall f :: PatchedValue(map[Key(Year) := Num(y as real)], m, f) == FieldValue(m.(year := y), f)
  {
    forall f ensures PatchedValue(map[Key(Year) := Num(y as real)], m, f) == FieldValue(m.(year := y), f) {
      if f != Year {
        assert Key(f) != Key(Year);
      }
    }
  }

  /** Patching with a body holding only a valid year, such as `{year: 2020}`,
      changes the year of the first record with the id and nothing else. */
  lemma PatchYearOnly(s: Store, id: string, i: nat, y: int, isUrl: string -> bool)
    requires FirstWithId(s, id, i) && ValidYear(y)
    ensures var r := PatchMovie(s, id, Obj(map[Key(Year) := Num(y as real)]), isUrl);
      && r.status == StatusCreated
      && r.store == s[i := StoredMovie(id, s[i].data.(year := y))]
  {
    var o := map[Key(Year) := Num(y as real)];
    SchemaProperties.YearOnlyUpdateAccepted(y, isUrl);
    PatchAt(s, id, Obj(o), i, isUrl);
    var r := PatchMovie(s, id, Obj(o), isUrl);
    var expected := s[i].data.(year := y);
    YearOnlyPatchedValues(s[i].data, y);
    SchemaProperties.FieldValuesDetermineMovie(r.store[i].data, expected);
    ReplacedAt(s, r.store, i, expected);
  }

  /** No schema field is called "id". */
  lemma IdIsNotASchemaKey()
    ensures forall f :: Key(f) != "id"
  {
  }

  /** An update naming no schema field, such as `{}` or `{id: "x"}`, leaves
      the store as it was, although it answers 201: unknown keys are dropped,
      so in particular a stored id is never overwritten. */
  lemma PatchWithoutSchemaKeysKeepsStore(s: Store, id: string, body: Value, i: nat, isUrl: string -> bool)
    requires body.Obj? && forall f :: Key(f) !in body.fields
    requires FirstWithId(s, id, i)
    ensures PatchMovie(s, id, body, isUrl) == Reply(StatusCreated, One(s[i]), s)
  {
    assert forall f :: !PartialViolates(body.fields, f, isUrl);
    PatchAt(s, id, body, i, isUrl);
    var r := PatchMovie(s, id, body, isUrl);
    assert forall f :: PatchedValue(body.fields, s[i].data, f) == FieldValue(s[i].data, f);
    SchemaProperties.FieldValuesDetermineMovie(r.store[i].data, s[i].data);
    ReplacedAt(s, r.store, i, s[i].data);
    assert s[i := s[i]] == s;
  }

  /** Applying the same update twice has the effect of applying it once. */
  lemma PatchIdempotent(s: Store, id: string, body: Value, isUrl: string -> bool)
    ensures var once := PatchMovie(s, id, body, isUrl);
      PatchMovie(once.store, id, body, isUrl).store == once.store
  {
    var once := PatchMovie(s, id, body, isUrl);
    var twice := PatchMovie(once.store, id, body, isUrl);
    if ValidatePartialMovie(body, isUrl).Success? && HasId(s, id) {
      var i := FindIndex(s, id).value;
      PatchAt(s, id, body, i, isUrl);
      assert FirstWithId(once.store, id, i);
      PatchAt(once.store, id, body, i, isUrl);
      forall f ensures FieldValue(twice.store[i].data, f) == FieldValue(once.store[i].data, f) {
        assert FieldValue(twice.store[i].data, f) == PatchedValue(body.fields, once.store[i].data, f);
        assert FieldValue(once.store[i].data, f) == PatchedValue(body.fields, s[i].data, f);
      }
      SchemaProperties.FieldValuesDetermineMovie(twice.store[i].data, once.store[i].data);
      ReplacedAt(once.store, twice.store, i, once.store[i].data);
      assert once.store[i := once.store[i]] == once.store;
    } else {
      assert !HasId(s, id) ==> !HasId(once.store, id);
    }
  }
}
