/** The movie schema: the allowed genres, one rule per field, the full
    validator applied to a new movie and the partial validator applied to an
    update. Validation never throws: it yields either a normalised record
    holding only schema fields or the list of every field that broke its rule.

    The URL syntax check on `poster` belongs to the validation library; it is
    the parameter `isUrl` throughout. */
module MoviesSchema {
  import opened Wrappers
  import opened Json

  /** The genre names a movie may list; matching is exact and case-sensitive. */
  const AllowedGenres: seq<string> :=
    ["Action", "Adventure", "Comedy", "Crime", "Drama", "Fantasy", "Horror", "Romance", "Sci-Fi", "Thriller"]

  const DefaultTitle: string := "Untitled"
  const MinYear: int := 1900
  const MaxYear: int := 2024
  const MaxDirectorLength: nat := 50
  const MinRate: real := 0.0
  const MaxRate: real := 10.0

  /** The fields of the schema, in the order the schema declares them. */
  datatype Field = Title | Year | Director | Duration | Rate | Poster | Genre

  /** The JSON key of each field. */
  function Key(f: Field): string {
    match f
    case Title => "title"
    case Year => "year"
    case Director => "director"
    case Duration => "duration"
    case Rate => "rate"
    case Poster => "poster"
    case Genre => "genre"
  }

  /** Fields whose absence fails full validation: the title has a default
      and the poster is optional. */
  predicate Required(f: Field) {
    f != Title && f != Poster
  }

  /** What full validation puts in place of an absent field. */
  function Default(f: Field): Option<Value> {
    if f == Title then Some(Str(DefaultTitle)) else None
  }

  /** One entry of a validation error: the input is not an object at all, or
      the named field broke its rule. */
  datatype Issue = NotAnObject | Invalid(field: Field)

  /** A movie as the schema outputs it: only schema fields, title defaulted. */
  datatype Movie = Movie(
    title: string,
    year: int,
    director: string,
    duration: int,
    rate: real,
    poster: Option<string>,
    genre: seq<string>)

  /** The output of partial validation: a field is `Some` exactly when the
      input supplied it. */
  datatype PartialMovie = PartialMovie(
    title: Option<string>,
    year: Option<int>,
    director: Option<string>,
    duration: Option<int>,
    rate: Option<real>,
    poster: Option<string>,
    genre: Option<seq<string>>)

  /** The partial record of an empty update. */
  const NoChanges: PartialMovie := PartialMovie(None, None, None, None, None, None, None)

  // Rules on typed field values.

  predicate ValidYear(y: int) { MinYear <= y <= MaxYear }

  predicate ValidDirector(d: string) { |d| <= MaxDirectorLength }

  predicate ValidDuration(d: int) { d > 0 }

  predicate ValidRate(x: real) { MinRate <= x <= MaxRate }

  /** Every listed genre is allowed; the empty list is allowed too. */
  predicate ValidGenres(gs: seq<string>) {
    forall i :: 0 <= i < |gs| ==> gs[i] in AllowedGenres
  }

  /** A movie that satisfies every rule of the schema. */
  predicate ValidMovie(m: Movie, isUrl: string -> bool) {
    && ValidYear(m.year)
    && ValidDirector(m.director)
    && ValidDuration(m.duration)
    && ValidRate(m.rate)
    && (m.poster.Some? ==> isUrl(m.poster.value))
    && ValidGenres(m.genre)
  }

  /** A partial movie each of whose present fields satisfies its rule. */
  predicate ValidPartial(p: PartialMovie, isUrl: string -> bool) {
    && (p.year.Some? ==> ValidYear(p.year.value))
    && (p.director.Some? ==> ValidDirector(p.director.value))
    && (p.duration.Some? ==> ValidDuration(p.duration.value))
    && (p.rate.Some? ==> ValidRate(p.rate.value))
    && (p.poster.Some? ==> isUrl(p.poster.value))
    && (p.genre.Some? ==> ValidGenres(p.genre.value))
  }

  // Rules on raw JSON values: the schema read field by field.

  /** The rule the schema attaches to field `f`, for a value that is present. */
  /** `null` passes no rule, since `.optional()` and `.default()` concern
      absent keys only; otherwise each field demands its JSON type. */
  predicate Accepts(f: Field, v: Value, isUrl: string -> bool): (ok: bool)
    ensures v.Null? ==> !ok
    ensures ok && (f == Title || f == Director || f == Poster) ==> v.Str?
    ensures ok && (f == Year || f == Duration || f == Rate) ==> v.Num?
    ensures ok && f == Genre ==> v.Arr?
  {
    match f
    case Title => v.Str?
    case Year => v.Num? && IsInteger(v.n) && ValidYear(v.n.Floor)
    case Director => v.Str? && ValidDirector(v.s)
    case Duration => v.Num? && IsInteger(v.n) && ValidDuration(v.n.Floor)
    case Rate => v.Num? && ValidRate(v.n)
    case Poster => v.Str? && isUrl(v.s)
    case Genre => v.Arr? && forall i :: 0 <= i < |v.items| ==> IsGenreName(v.items[i])
  }

  /** A genre array element: a string naming an allowed genre. */
  predicate IsGenreName(v: Value) {
    v.Str? && v.s in AllowedGenres
  }

  /** Field `f` of object `o` fails full validation: present and rejected,
      or required and absent. */
  predicate Violates(o: map<string, Value>, f: Field, isUrl: string -> bool) {
    if Key(f) in o then !Accepts(f, o[Key(f)], isUrl) else Required(f)
  }

  /** Field `f` of object `o` fails partial validation: present and rejected. */
  predicate PartialViolates(o: map<string, Value>, f: Field, isUrl: string -> bool) {
    Key(f) in o && !Accepts(f, o[Key(f)], isUrl)
  }

  // The JSON form of typed records.

  function GenreValues(gs: seq<string>): (vs: seq<Value>)
    ensures |vs| == |gs|
    ensures forall i :: 0 <= i < |gs| ==> vs[i] == Str(gs[i])
  {
    seq(|gs|, i requires 0 <= i < |gs| => Str(gs[i]))
  }

  /** The JSON value field `f` of `m` serialises to; `None` for an absent poster. */
  function FieldValue(m: Movie, f: Field): Option<Value> {
    match f
    case Title => Some(Str(m.title))
    case Year => Some(Num(m.year as real))
    case Director => Some(Str(m.director))
    case Duration => Some(Num(m.duration as real))
    case Rate => Some(Num(m.rate))
    case Poster => if m.poster.Some? then Some(Str(m.poster.value)) else None
    case Genre => Some(Arr(GenreValues(m.genre)))
  }

  /** The JSON value of field `f` of `p`; `None` when the update leaves it out. */
  function PartialFieldValue(p: PartialMovie, f: Field): Option<Value> {
    match f
    case Title => if p.title.Some? then Some(Str(p.title.value)) else None
    case Year => if p.year.Some? then Some(Num(p.year.value as real)) else None
    case Director => if p.director.Some? then Some(Str(p.director.value)) else None
    case Duration => if p.duration.Some? then Some(Num(p.duration.value as real)) else None
    case Rate => if p.rate.Some? then Some(Num(p.rate.value)) else None
    case Poster => if p.poster.Some? then Some(Str(p.poster.value)) else None
    case Genre => if p.genre.Some? then Some(Arr(GenreValues(p.genre.value))) else None
  }

  /** The JSON object of a movie: exactly its fields, under their keys. */
  function Encode(m: Movie): (v: Value)
    ensures v.Obj?
    ensures forall f :: Key(f) in v.fields <==> FieldValue(m, f).Some?
    ensures forall f :: Key(f) in v.fields ==> v.fields[Key(f)] == FieldValue(m, f).value
    ensures forall k :: k in v.fields ==> exists f :: Key(f) == k
  {
    var fields := map[
      Key(Title) := Str(m.title),
      Key(Year) := Num(m.year as real),
      Key(Director) := Str(m.director),
      Key(Duration) := Num(m.duration as real),
      Key(Rate) := Num(m.rate),
      Key(Genre) := Arr(GenreValues(m.genre))];
    if m.poster.Some? then
      Obj(fields[Key(Poster) := Str(m.poster.value)])
    else
      assert forall k :: k in fields ==> k != Key(Poster);
      Obj(fields)
  }

  // Field parsers: each accepts exactly its rule and decodes the value so
  // that it serialises back to the input. Only the poster rule consults the
  // URL check, so the others are stated with a check that accepts anything.

  function ParseTitle(v: Value): (r: Option<string>)
    ensures r.Some? <==> Accepts(Title, v, _ => true)
    ensures r.Some? ==> v == Str(r.value)
  {
    if v.Str? then Some(v.s) else None
  }

  function ParseYear(v: Value): (r: Option<int>)
    ensures r.Some? <==> Accepts(Year, v, _ => true)
    ensures r.Some? ==> v == Num(r.value as real) && ValidYear(r.value)
  {
    if v.Num? && IsInteger(v.n) && ValidYear(v.n.Floor) then Some(v.n.Floor) else None
  }

  function ParseDirector(v: Value): (r: Option<string>)
    ensures r.Some? <==> Accepts(Director, v, _ => true)
    ensures r.Some? ==> v == Str(r.value) && ValidDirector(r.value)
  {
    if v.Str? && ValidDirector(v.s) then Some(v.s) else None
  }

  function ParseDuration(v: Value): (r: Option<int>)
    ensures r.Some? <==> Accepts(Duration, v, _ => true)
    ensures r.Some? ==> v == Num(r.value as real) && ValidDuration(r.value)
  {
    if v.Num? && IsInteger(v.n) && ValidDuration(v.n.Floor) then Some(v.n.Floor) else None
  }

  function ParseRate(v: Value): (r: Option<real>)
    ensures r.Some? <==> Accepts(Rate, v, _ => true)
    ensures r.Some? ==> v == Num(r.value) && ValidRate(r.value)
  {
    if v.Num? && ValidRate(v.n) then Some(v.n) else None
  }

  function ParsePoster(v: Value, isUrl: string -> bool): (r: Option<string>)
    ensures r.Some? <==> Accepts(Poster, v, isUrl)
    ensures r.Some? ==> v == Str(r.value) && isUrl(r.value)
  {
    if v.Str? && isUrl(v.s) then Some(v.s) else None
  }

  function ParseGenre(v: Value): (r: Option<seq<string>>)
    ensures r.Some? <==> Accepts(Genre, v, _ => true)
    ensures r.Some? ==> v == Arr(GenreValues(r.value)) && ValidGenres(r.value)
  {
    if v.Arr? && forall i :: 0 <= i < |v.items| ==> IsGenreName(v.items[i]) then
      var gs := seq(|v.items|, i requires 0 <= i < |v.items| => v.items[i].s);
      assert GenreValues(gs) == v.items;
      Some(gs)
    else
      None
  }

  /** Every field, in schema order. */
  const AllFields: seq<Field> := [Title, Year, Director, Duration, Rate, Poster, Genre]

  lemma AllFieldsComplete(f: Field)
    ensures f in AllFields
  {
  }

  /** The issues of partial validation, one per field of `fs` that is
      present in `o` and was not parsed into `p`, in the order of `fs`. */
  function PartialIssues(fs: seq<Field>, o: map<string, Value>, p: PartialMovie): (r: seq<Issue>)
    ensures NotAnObject !in r
    ensures forall f :: Invalid(f) in r <==> f in fs && Key(f) in o && PartialFieldValue(p, f).None?
  {
    if fs == [] then []
    else
      var f := fs[0];
      (if Key(f) in o && PartialFieldValue(p, f).None? then [Invalid(f)] else []) + PartialIssues(fs[1..], o, p)
  }

  /** The issues of full validation: as for partial validation, plus one per
      required field of `fs` that is absent from `o`. */
  function FullIssues(fs: seq<Field>, o: map<string, Value>, p: PartialMovie): (r: seq<Issue>)
    ensures NotAnObject !in r
    ensures forall f :: Invalid(f) in r <==>
      f in fs && (if Key(f) in o then PartialFieldValue(p, f).None? else Required(f))
  {
    if fs == [] then []
    else
      var f := fs[0];
      var failed := if Key(f) in o then PartialFieldValue(p, f).None? else Required(f);
      (if failed then [Invalid(f)] else []) + FullIssues(fs[1..], o, p)
  }

  /** The fields of `o` that are present and pass their rule, parsed; every
      other field is `None`. This is the per-field check both validators share. */
  function ParsePresent(o: map<string, Value>, isUrl: string -> bool): (p: PartialMovie)
    ensures ValidPartial(p, isUrl)
  {
    PartialMovie(
      if Key(Title) in o then ParseTitle(o[Key(Title)]) else None,
      if Key(Year) in o then ParseYear(o[Key(Year)]) else None,
      if Key(Director) in o then ParseDirector(o[Key(Director)]) else None,
      if Key(Duration) in o then ParseDuration(o[Key(Duration)]) else None,
      if Key(Rate) in o then ParseRate(o[Key(Rate)]) else None,
      if Key(Poster) in o then ParsePoster(o[Key(Poster)], isUrl) else None,
      if Key(Genre) in o then ParseGenre(o[Key(Genre)]) else None)
  }

  /** What the shared per-field check yields for one field: the field is set
      exactly when it is present and passes its rule, and then it holds the
      input value unchanged. */
  lemma ParsePresentField(o: map<string, Value>, isUrl: string -> bool, f: Field)
    ensures var p := ParsePresent(o, isUrl);
      && (PartialFieldValue(p, f).Some? <==> Key(f) in o && Accepts(f, o[Key(f)], isUrl))
      && (PartialFieldValue(p, f).Some? ==> PartialFieldValue(p, f) == Some(o[Key(f)]))
  {
    match f
    case Title =>
    case Year =>
    case Director =>
    case Duration =>
    case Rate =>
    case Poster =>
    case Genre =>
  }

  /** Full validation's issues are exactly the violated fields. */
  lemma FullIssuesAreViolations(o: map<string, Value>, isUrl: string -> bool)
    ensures forall f :: Invalid(f) in FullIssues(AllFields, o, ParsePresent(o, isUrl)) <==> Violates(o, f, isUrl)
  {
    forall f ensures Invalid(f) in FullIssues(AllFields, o, ParsePresent(o, isUrl)) <==> Violates(o, f, isUrl) {
      AllFieldsComplete(f);
      ParsePresentField(o, isUrl, f);
    }
  }

  /** Partial validation's issues are exactly the fields present and rejected. */
  lemma PartialIssuesAreViolations(o: map<string, Value>, isUrl: string -> bool)
    ensures forall f :: Invalid(f) in PartialIssues(AllFields, o, ParsePresent(o, isUrl)) <==> PartialViolates(o, f, isUrl)
  {
    forall f ensures Invalid(f) in PartialIssues(AllFields, o, ParsePresent(o, isUrl)) <==> PartialViolates(o, f, isUrl) {
      AllFieldsComplete(f);
      ParsePresentField(o, isUrl, f);
    }
  }

  /** The movie of a partial record whose required fields are set: each
      field serialises to the partial record's value, or to the default where
      the partial record leaves it out, so the title becomes "Untitled" and
      an absent poster stays absent. */
  function WithDefaults(p: PartialMovie): (m: Movie)
    requires p.year.Some? && p.director.Some? && p.duration.Some? && p.rate.Some? && p.genre.Some?
    ensures forall f ::
      FieldValue(m, f) == if PartialFieldValue(p, f).Some? then PartialFieldValue(p, f) else Default(f)
  {
    Movie(
      if p.title.Some? then p.title.value else DefaultTitle,
      p.year.value, p.director.value, p.duration.value, p.rate.value,
      p.poster,
      p.genre.value)
  }

  /** When no field of `o` is violated, the defaulted parse of `o` serialises
      every field to its input value, or to the default where it is absent. */
  lemma WithDefaultsFields(o: map<string, Value>, isUrl: string -> bool)
    requires forall f :: !Violates(o, f, isUrl)
    ensures var p := ParsePresent(o, isUrl);
      && p.year.Some? && p.director.Some? && p.duration.Some? && p.rate.Some? && p.genre.Some?
      && forall f :: FieldValue(WithDefaults(p), f) == if Key(f) in o then Some(o[Key(f)]) else Default(f)
  {
    var p := ParsePresent(o, isUrl);
    forall f | Required(f) ensures PartialFieldValue(p, f).Some? {
      ParsePresentField(o, isUrl, f);
      assert !Violates(o, f, isUrl);
    }
    assert PartialFieldValue(p, Year).Some? && PartialFieldValue(p, Director).Some?;
    assert PartialFieldValue(p, Duration).Some? && PartialFieldValue(p, Rate).Some?;
    assert PartialFieldValue(p, Genre).Some?;
    forall f ensures FieldValue(WithDefaults(p), f) == if Key(f) in o then Some(o[Key(f)]) else Default(f) {
      ParsePresentField(o, isUrl, f);
      assert !Violates(o, f, isUrl);
      if Key(f) !in o {
        assert !Required(f);
        assert f == Title || f == Poster;
      }
    }
  }

  /** Full validation, as used when a movie is created: every field checked,
      every violation reported, unknown keys dropped, the title defaulted. */
  function ValidateMovie(input: Value, isUrl: string -> bool): (r: Result<Movie, seq<Issue>>)
    ensures !input.Obj? ==> r == Failure([NotAnObject])
    ensures input.Obj? ==> (r.Success? <==> forall f :: !Violates(input.fields, f, isUrl))
    ensures input.Obj? && r.Failure? ==>
      && NotAnObject !in r.error
      && forall f :: Invalid(f) in r.error <==> Violates(input.fields, f, isUrl)
    ensures r.Failure? ==> |r.error| > 0
    ensures r.Success? ==> ValidMovie(r.value, isUrl)
    ensures r.Success? ==> forall f ::
      FieldValue(r.value, f) == if Key(f) in input.fields then Some(input.fields[Key(f)]) else Default(f)
  {
    if !input.Obj? then Failure([NotAnObject])
    else
      var o := input.fields;
      var p := ParsePresent(o, isUrl);
      var issues := FullIssues(AllFields, o, p);
      FullIssuesAreViolations(o, isUrl);
      if issues == [] then
        WithDefaultsFields(o, isUrl);
        Success(WithDefaults(p))
      else
        assert issues[0] in issues && Violates(o, issues[0].field, isUrl);
        Failure(issues)
  }

  /** Partial validation, as used when a movie is updated: every field is
      optional, but a field that is present must pass its full-schema rule.
      An absent title is not defaulted. */
  function ValidatePartialMovie(input: Value, isUrl: string -> bool): (r: Result<PartialMovie, seq<Issue>>)
    ensures !input.Obj? ==> r == Failure([NotAnObject])
    ensures input.Obj? ==> (r.Success? <==> forall f :: !PartialViolates(input.fields, f, isUrl))
    ensures input.Obj? && r.Failure? ==>
      && NotAnObject !in r.error
      && forall f :: Invalid(f) in r.error <==> PartialViolates(input.fields, f, isUrl)
    ensures r.Failure? ==> |r.error| > 0
    ensures r.Success? ==> ValidPartial(r.value, isUrl)
    ensures r.Success? ==> forall f ::
      PartialFieldValue(r.value, f) == if Key(f) in input.fields then Some(input.fields[Key(f)]) else None
  {
    if !input.Obj? then Failure([NotAnObject])
    else
      var o := input.fields;
      var p := ParsePresent(o, isUrl);
      var issues := PartialIssues(AllFields, o, p);
      PartialIssuesAreViolations(o, isUrl);
      if issues == [] then
        assert forall f :: PartialFieldValue(p, f) == if Key(f) in o then Some(o[Key(f)]) else None by {
          forall f ensures PartialFieldValue(p, f) == if Key(f) in o then Some(o[Key(f)]) else None {
            ParsePresentField(o, isUrl, f);
          }
        }
        Success(p)
      else
        assert issues[0] in issues && PartialViolates(o, issues[0].field, isUrl);
        Failure(issues)
  }
}
