/** Properties of the movie schema that relate several calls or name
    concrete inputs. */
module SchemaProperties {
  import opened Wrappers
  import opened Json
  import opened MoviesSchema

  /** A movie is valid exactly when each of its serialised fields passes the
      rule of the raw schema. */
  lemma ValidMovieIffFieldsAccepted(m: Movie, isUrl: string -> bool)
    ensures ValidMovie(m, isUrl) <==>
      forall f :: FieldValue(m, f).Some? ==> Accepts(f, FieldValue(m, f).value, isUrl)
  {
    var gv := GenreValues(m.genre);
    assert ValidGenres(m.genre) <==> forall i :: 0 <= i < |gv| ==> IsGenreName(gv[i]);
    if ValidMovie(m, isUrl) {
      forall f | FieldValue(m, f).Some?
        ensures Accepts(f, FieldValue(m, f).value, isUrl)
      {
      }
    } else {
      if !ValidGenres(m.genre) {
        assert !Accepts(Genre, FieldValue(m, Genre).value, isUrl);
      } else if !ValidYear(m.year) {
        assert !Accepts(Year, FieldValue(m, Year).value, isUrl);
      } else if !ValidDuration(m.duration) {
        assert !Accepts(Duration, FieldValue(m, Duration).value, isUrl);
      } else if !ValidDirector(m.director) {
        assert !Accepts(Director, FieldValue(m, Director).value, isUrl);
      } else if !ValidRate(m.rate) {
        assert !Accepts(Rate, FieldValue(m, Rate).value, isUrl);
      } else {
        assert !Accepts(Poster, FieldValue(m, Poster).value, isUrl);
      }
    }
  }

  /** Two movies that serialise every field alike are the same movie. */
  lemma FieldValuesDetermineMovie(m1: Movie, m2: Movie)
    requires forall f :: FieldValue(m1, f) == FieldValue(m2, f)
    ensures m1 == m2
  {
    assert FieldValue(m1, Title) == FieldValue(m2, Title);
    assert FieldValue(m1, Year) == FieldValue(m2, Year);
    assert FieldValue(m1, Director) == FieldValue(m2, Director);
    assert FieldValue(m1, Duration) == FieldValue(m2, Duration);
    assert FieldValue(m1, Rate) == FieldValue(m2, Rate);
    assert FieldValue(m1, Poster) == FieldValue(m2, Poster);
    var g1, g2 := GenreValues(m1.genre), GenreValues(m2.genre);
    assert FieldValue(m1, Genre) == FieldValue(m2, Genre);
    assert |m1.genre| == |m2.genre|;
    forall i | 0 <= i < |m1.genre|
      ensures m1.genre[i] == m2.genre[i]
    {
      assert g1[i] == g2[i];
    }
  }

  /** Every field of a valid movie's JSON object passes full validation. */
  lemma EncodeFieldsAccepted(m: Movie, isUrl: string -> bool)
    requires ValidMovie(m, isUrl)
    ensures forall f :: !Violates(Encode(m).fields, f, isUrl)
  {
    var v := Encode(m);
    ValidMovieIffFieldsAccepted(m, isUrl);
    forall f ensures !Violates(v.fields, f, isUrl) {
      if Key(f) !in v.fields {
        assert f == Poster;
      }
    }
  }

  /** When an object serialises `m` field for field and passes validation,
      validation returns `m`. */
  lemma ValidateRecoversMovie(v: Value, m: Movie, isUrl: string -> bool)
    requires v.Obj? && ValidateMovie(v, isUrl).Success?
    requires forall f :: Key(f) in v.fields <==> FieldValue(m, f).Some?
    requires forall f :: Key(f) in v.fields ==> v.fields[Key(f)] == FieldValue(m, f).value
    ensures ValidateMovie(v, isUrl) == Success(m)
  {
    var r := ValidateMovie(v, isUrl);
    forall f ensures FieldValue(r.value, f) == FieldValue(m, f) {
      if Key(f) !in v.fields {
        assert f == Poster;
      }
    }
    FieldValuesDetermineMovie(r.value, m);
  }

  /** Serialising a movie and validating the JSON gives the movie back
      exactly when the movie satisfies the schema. */
  lemma EncodeRoundTrip(m: Movie, isUrl: string -> bool)
    ensures ValidateMovie(Encode(m), isUrl) == Success(m) <==> ValidMovie(m, isUrl)
  {
    if ValidMovie(m, isUrl) {
      EncodeFieldsAccepted(m, isUrl);
      ValidateRecoversMovie(Encode(m), m, isUrl);
    }
  }

  /** Omitting a required field fails full validation, and the error names it. */
  lemma MissingRequiredFieldFails(input: Value, f: Field, isUrl: string -> bool)
    requires input.Obj? && Required(f) && Key(f) !in input.fields
    ensures ValidateMovie(input, isUrl).Failure?
    ensures Invalid(f) in ValidateMovie(input, isUrl).error
  {
  }

  /** The empty object fails full validation, and the error names every
      required field, not only the first, and nothing else. */
  lemma EmptyObjectReportsAllRequired(isUrl: string -> bool)
    ensures ValidateMovie(Obj(map[]), isUrl).Failure?
    ensures forall f :: Invalid(f) in ValidateMovie(Obj(map[]), isUrl).error <==> Required(f)
    ensures NotAnObject !in ValidateMovie(Obj(map[]), isUrl).error
  {
    assert Violates(map[], Year, isUrl);
  }

  /** A genre element outside the allowed names fails both validators, and
      the error names the genre field. */
  lemma UnknownGenreRejected(input: Value, i: nat, isUrl: string -> bool)
    requires input.Obj? && Key(Genre) in input.fields && input.fields[Key(Genre)].Arr?
    requires i < |input.fields[Key(Genre)].items| && !IsGenreName(input.fields[Key(Genre)].items[i])
    ensures ValidateMovie(input, isUrl).Failure? && Invalid(Genre) in ValidateMovie(input, isUrl).error
    ensures ValidatePartialMovie(input, isUrl).Failure? && Invalid(Genre) in ValidatePartialMovie(input, isUrl).error
  {
    assert Violates(input.fields, Genre, isUrl);
    assert PartialViolates(input.fields, Genre, isUrl);
  }

  /** Genre names match exactly: `["Drama"]` passes the genre rule,
      `["drama"]` does not, and an update `{genre: ["drama"]}` fails both
      validators naming the genre field. */
  lemma GenreMatchIsCaseSensitive(isUrl: string -> bool)
    ensures Accepts(Genre, Arr([Str("Drama")]), isUrl)
    ensures !Accepts(Genre, Arr([Str("drama")]), isUrl)
    ensures var input := Obj(map[Key(Genre) := Arr([Str("drama")])]);
      && ValidateMovie(input, isUrl).Failure? && Invalid(Genre) in ValidateMovie(input, isUrl).error
      && ValidatePartialMovie(input, isUrl).Failure? && Invalid(Genre) in ValidatePartialMovie(input, isUrl).error
  {
    assert "Drama" == AllowedGenres[4];
    var bad := Arr([Str("drama")]);
    assert !IsGenreName(bad.items[0]);
    UnknownGenreRejected(Obj(map[Key(Genre) := bad]), 0, isUrl);
  }

  /** An empty genre array passes the genre rule. */
  lemma EmptyGenreListAccepted(isUrl: string -> bool)
    ensures Accepts(Genre, Arr([]), isUrl)
  {
  }

  /** An absent title becomes "Untitled"; a supplied string title is kept. */
  lemma TitleDefaulted(input: Value, isUrl: string -> bool)
    requires ValidateMovie(input, isUrl).Success?
    ensures Key(Title) !in input.fields ==> ValidateMovie(input, isUrl).value.title == DefaultTitle
    ensures Key(Title) in input.fields ==> input.fields[Key(Title)] == Str(ValidateMovie(input, isUrl).value.title)
  {
    assert FieldValue(ValidateMovie(input, isUrl).value, Title) ==
      if Key(Title) in input.fields then Some(input.fields[Key(Title)]) else Default(Title);
  }

  /** Partial validation of the empty object succeeds and sets no field. */
  lemma EmptyPartialSucceeds(isUrl: string -> bool)
    ensures ValidatePartialMovie(Obj(map[]), isUrl) == Success(NoChanges)
  {
    var r := ValidatePartialMovie(Obj(map[]), isUrl);
    assert forall f :: !PartialViolates(map[], f, isUrl);
    var p := r.value;
    assert PartialFieldValue(p, Title).None?;
    assert PartialFieldValue(p, Year).None?;
    assert PartialFieldValue(p, Director).None?;
    assert PartialFieldValue(p, Duration).None?;
    assert PartialFieldValue(p, Rate).None?;
    assert PartialFieldValue(p, Poster).None?;
    assert PartialFieldValue(p, Genre).None?;
  }

  /** Whatever full validation accepts, partial validation accepts too, and
      it sets exactly the supplied fields, to the values full validation kept. */
  lemma FullImpliesPartial(input: Value, isUrl: string -> bool)
    requires ValidateMovie(input, isUrl).Success?
    ensures ValidatePartialMovie(input, isUrl).Success?
    ensures forall f :: Key(f) in input.fields ==>
      PartialFieldValue(ValidatePartialMovie(input, isUrl).value, f) == FieldValue(ValidateMovie(input, isUrl).value, f)
  {
    forall f ensures !PartialViolates(input.fields, f, isUrl) {
      assert !Violates(input.fields, f, isUrl);
    }
  }

  /** An update body holding only a valid year, such as `{year: 2020}`,
      passes partial validation. */
  lemma YearOnlyUpdateAccepted(y: int, isUrl: string -> bool)
    requires ValidYear(y)
    ensures ValidatePartialMovie(Obj(map[Key(Year) := Num(y as real)]), isUrl).Success?
  {
    var o := map[Key(Year) := Num(y as real)];
    assert IsInteger(y as real) && (y as real).Floor == y;
    forall f ensures !PartialViolates(o, f, isUrl) {
      if f != Year {
        assert Key(f) !in o;
      }
    }
  }
}
