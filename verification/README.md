# Movies API: schema validation and in-memory store

This project models the core of a small Express/zod movie service in Dafny. The core has two parts.

- **The movie schema** (`schemas/moviesSchema.js`) covers:
  - the ten allowed genre names;
  - one rule per field (`title`, `year`, `director`, `duration`, `rate`, `poster`, `genre`);
  - `validateMovie`, which checks every field of a new movie;
  - `validatePartialMovie`, which checks only the fields an update supplies.

  Both validators take an arbitrary JSON value. They return either a normalised record holding only the schema fields, with the title defaulted to `"Untitled"` on full validation, or the list of every field that broke its rule.
- **The movie routes** (`app.js`): list (optionally filtered by genre), get by id, create, patch and delete. Each is a pure function from the store and the request to a reply: a status code, a body and the new store.

Files:

| file | contents |
|---|---|
| `wrappers.dfy` | `Option` and `Result` |
| `json.dfy` | the JSON value the validators read |
| `movies_schema.dfy` | `MoviesSchema`: constants, the field rules, serialisation, field parsers, the two validators |
| `schema_properties.dfy` | `SchemaProperties`: round trip, required fields, genre rules, title default, partial vs. full |
| `movies_app.dfy` | `MoviesApp`: the store, the five handlers and the request router |
| `app_properties.dfy` | `AppProperties`: the genre filter's order and case-insensitivity, and how create, patch and delete compose |

Modelling choices:

- JSON numbers are Dafny `real`s. "Integer" means the number has no fractional part.
- A validation error is a sequence of `Issue`s: `NotAnObject` for a non-object input, otherwise one `Invalid(field)` per violated field, in schema order.
- The store is a `seq<StoredMovie>`. Each record pairs an id with the validated payload. An `id` key in a request body is not a schema key, so validation drops it and it can never overwrite a stored id.
- The URL syntax check of the validation library is the parameter `isUrl`.
- The random UUID drawn on create is the parameter `newId`.

Facts about the code that a reader might not expect:

- The rating field is called `rate`, and its bounds are 0 and 10. The code says `min(0)`, while the comment on schemas/moviesSchema.js:14 says "entre 1 y 10". The model follows the code.
- `genre` has no non-empty constraint, so `[]` is accepted (`SchemaProperties.EmptyGenreListAccepted`).
- The handler tests the genre query with `if (genre)`. An empty query string is therefore falsy and lists the whole store unfiltered (`MoviesApp.ListMovies`).
- A genre query with no matches answers 404, even when the store itself is empty. The unfiltered list answers 200 with `[]` (`AppProperties.EmptyStoreAsymmetry`).
- A successful PATCH answers 201, not 200.

## Model

| member | source | states |
|---|---|---|
| MoviesSchema.ParseTitle | schemas/moviesSchema.js:7-10 | a present title is accepted exactly when it is a string, and is kept as given |
| MoviesSchema.ParseYear | schemas/moviesSchema.js:11 | a year is accepted exactly when it is a number with no fractional part between 1900 and 2024; the decoded int serialises back to the input |
| MoviesSchema.ParseDirector | schemas/moviesSchema.js:12 | a director is accepted exactly when it is a string of at most 50 characters |
| MoviesSchema.ParseDuration | schemas/moviesSchema.js:13 | a duration is accepted exactly when it is an integral number greater than 0; the decoded int serialises back to the input |
| MoviesSchema.ParseRate | schemas/moviesSchema.js:14 | a rate is accepted exactly when it is a number in [0, 10], fractions allowed |
| MoviesSchema.ParsePoster | schemas/moviesSchema.js:15 | a present poster is accepted exactly when it is a string passing the URL check |
| MoviesSchema.ParseGenre | schemas/moviesSchema.js:3-16 | a genre value is accepted exactly when it is an array, possibly empty, of strings each equal, case-sensitively, to one of the ten allowed names; decoding gives back the same array |
| MoviesSchema.ParsePresent | schemas/moviesSchema.js:6-17 | the fields parsed from an object all satisfy their rules |
| MoviesSchema.ParsePresentField | schemas/moviesSchema.js:6-17 | a field is parsed exactly when its key is present and its value passes that field's rule, and then it serialises back to the input value |
| MoviesSchema.PartialIssues | schemas/moviesSchema.js:24 | the partial-validation issue list names exactly the listed fields that are present but did not parse, and never reports a non-object |
| MoviesSchema.FullIssues | schemas/moviesSchema.js:20 | the full-validation issue list names exactly the listed fields that are present but did not parse, or are required and absent |
| MoviesSchema.FullIssuesAreViolations | schemas/moviesSchema.js:6-20 | full validation reports a field exactly when that field violates the full schema |
| MoviesSchema.PartialIssuesAreViolations | schemas/moviesSchema.js:23-25 | partial validation reports a field exactly when it is present and breaks its rule |
| MoviesSchema.Accepts | schemas/moviesSchema.js:7-16 | the raw rule of each field: `null` passes no rule (optional and defaulted fields concern absent keys only), and each field demands its JSON type: string, number or array |
| MoviesSchema.WithDefaults | schemas/moviesSchema.js:10 | the defaulted movie serialises each field to the parsed value, or to the default where the field is absent: "Untitled" for the title, still absent for the poster |
| MoviesSchema.WithDefaultsFields | schemas/moviesSchema.js:6-20 | when no field is violated, every required field parsed, and the resulting movie serialises each field to the input value or to its default |
| MoviesSchema.Encode | schemas/moviesSchema.js:6-17 | a movie's JSON object holds exactly its schema fields (poster only when present) under their keys, and nothing else |
| MoviesSchema.ValidateMovie | schemas/moviesSchema.js:6-21 | a non-object fails with a single root issue; an object succeeds iff no field violates the schema; on failure every violated field is named and only those, and the list is non-empty; on success the movie is valid and each field is the input value, or "Untitled" for an absent title, unknown keys dropped |
| MoviesSchema.ValidatePartialMovie | schemas/moviesSchema.js:23-25 | a non-object fails with a root issue; an object succeeds iff no present field breaks its rule; on failure exactly the offending fields are named; on success every field is the input value where supplied and absent otherwise, with no default applied |
| SchemaProperties.ValidMovieIffFieldsAccepted | schemas/moviesSchema.js:6-17 | a typed movie satisfies the schema iff each of its serialised fields passes the raw rule for that field |
| SchemaProperties.FieldValuesDetermineMovie | schemas/moviesSchema.js:6-17 | two movies whose fields serialise alike are equal: the JSON form loses nothing |
| SchemaProperties.EncodeFieldsAccepted | schemas/moviesSchema.js:6-17 | no field of a valid movie's JSON object violates the full schema |
| SchemaProperties.ValidateRecoversMovie | schemas/moviesSchema.js:19-21 | when validation succeeds on an object that serialises a movie field for field, it returns that movie |
| SchemaProperties.EncodeRoundTrip | schemas/moviesSchema.js:6-21 | validating a movie's JSON gives the movie back iff the movie satisfies the schema |
| SchemaProperties.MissingRequiredFieldFails | schemas/moviesSchema.js:11-16 | omitting year, director, duration, rate or genre fails full validation, and the error names that field |
| SchemaProperties.EmptyObjectReportsAllRequired | schemas/moviesSchema.js:6-21 | `{}` fails full validation with every required field named, not only the first, and nothing else |
| SchemaProperties.UnknownGenreRejected | schemas/moviesSchema.js:3-16 | one genre element outside the allowed names fails both validators, and the error names the genre field |
| SchemaProperties.GenreMatchIsCaseSensitive | schemas/moviesSchema.js:3-16 | `["Drama"]` passes the genre rule and `["drama"]` does not; `{genre: ["drama"]}` fails both validators, naming the genre field |
| SchemaProperties.EmptyGenreListAccepted | schemas/moviesSchema.js:16 | an empty genre array passes the genre rule |
| SchemaProperties.TitleDefaulted | schemas/moviesSchema.js:7-10 | an absent title becomes "Untitled"; a supplied string title is kept unchanged |
| SchemaProperties.EmptyPartialSucceeds | schemas/moviesSchema.js:23-25 | partial validation of `{}` succeeds with no field set |
| SchemaProperties.FullImpliesPartial | schemas/moviesSchema.js:19-25 | whatever full validation accepts, partial validation accepts too, with the same values for the supplied fields |
| SchemaProperties.YearOnlyUpdateAccepted | schemas/moviesSchema.js:11 | an update body holding only a valid year passes partial validation |
| MoviesApp.FindIndex | app.js:98 | the position found is the first one holding the id, and there is none exactly when no record has the id |
| MoviesApp.Lower | app.js:44 | lower-casing keeps the length, leaves no capital ASCII letter, turns each capital into its small letter and keeps every other character |
| MoviesApp.MatchesGenre | app.js:44 | a record matches when some listed genre equals the query ignoring case; one listing no genres never matches, one listing the query itself always does |
| MoviesApp.SomeGenreMatches | app.js:44 | the genre test holds iff some listed genre equals the query, ignoring case |
| MoviesApp.FilterByGenre | app.js:43-45 | the filter keeps each record with a matching genre as often as the store holds it, and drops every other record |
| MoviesApp.ListMovies | app.js:38-54 | the store is unchanged; an absent or empty query gives 200 with the whole store, even when empty; otherwise 200 with the filtered records iff some record matches, else 404 "Not Found" |
| MoviesApp.GetMovie | app.js:56-64 | the store is unchanged; 200 with the first record holding the id iff one exists, otherwise 404 "Not Found" |
| MoviesApp.CreateMovie | app.js:67-89 | an invalid body gives 400 with the issues and the store unchanged; a valid one gives 201, appends exactly (newId, validated payload), and sends the whole new store; store validity is kept, and id uniqueness too when newId is fresh |
| MoviesApp.AppendKeepsInvariants | app.js:86 | appending a valid record keeps the store valid, and appending a fresh id keeps ids unique |
| MoviesApp.Merge | app.js:102-105 | the spread of an update over a stored payload: each field serialises to the update's value where supplied and the stored value elsewhere |
| MoviesApp.MergePreservesValidity | app.js:102-105 | merging a valid update into a valid payload gives a valid payload |
| MoviesApp.PatchMovie | app.js:92-110 | an invalid body gives 400 whatever the id, the store unchanged; a valid body with an unknown id gives 404 "Movie not found", the store unchanged; otherwise 201, and only the first record with the id changes, keeping its id, each field taking the body's value where present; every id, the length and store validity are kept |
| MoviesApp.DeleteMovie | app.js:112-121 | an unknown id gives 404 "Movie not found", the store unchanged; otherwise 200 with the first record holding the id, which is removed, the rest keeping their order; with unique ids the id is gone afterwards |
| MoviesApp.RemoveAt | app.js:118 | the splice removes one position, keeps the records before it and shifts the later ones up by one |
| MoviesApp.RemoveKeepsUniqueIds | app.js:118 | removing a record from a store with unique ids keeps them unique and leaves no record with the removed id |
| MoviesApp.Handle | app.js:38-121 | every route answers 200, 201, 400 or 404; reads leave the store alone; the length changes by at most one; validity is kept; uniqueness is kept when the create id is fresh |
| AppProperties.FilterIsSubsequence | app.js:43-45 | the genre filter keeps the store's order |
| AppProperties.FilterMembership | app.js:43-45 | a record is in the filtered list iff it is in the store and has a matching genre |
| AppProperties.LowerIdempotent | app.js:44 | lower-casing twice is lower-casing once |
| AppProperties.FilterCaseInsensitive | app.js:44 | queries that agree once lower-cased filter the same records |
| AppProperties.ListCaseInsensitive | app.js:42-51 | non-empty queries differing only in letter case get the same reply |
| AppProperties.ActionQueriesAgree | app.js:44 | "action" and "Action" list the same reply |
| AppProperties.EmptyStoreAsymmetry | app.js:42-53 | on an empty store, the unfiltered list answers 200 with `[]` but every genre query answers 404 |
| AppProperties.DramaExample | app.js:42-50 | a store with one "Drama" movie: the query "Comedy" answers 404, "drama" answers 200 with that movie |
| AppProperties.GetAfterCreate | app.js:58-60 | after creating under a fresh id, getting that id answers 200 with the new record |
| AppProperties.DeleteUndoesCreate | app.js:67-121 | deleting a freshly created record restores the store |
| AppProperties.DeleteTwiceNotFound | app.js:114-120 | with unique ids, deleting an existing id succeeds, and deleting it again answers 404 with the store unchanged |
| AppProperties.YearOnlyPatchedValues | app.js:102-105 | patching a payload with only a year serialises like the payload with that year replaced |
| AppProperties.PatchYearOnly | app.js:92-109 | patching with `{year: y}` for a valid y replaces the first record holding the id by the same record with only the year changed |
| AppProperties.IdIsNotASchemaKey | schemas/moviesSchema.js:6-17 | no schema field is called "id" |
| AppProperties.PatchWithoutSchemaKeysKeepsStore | app.js:93-109 | an update with no schema keys, e.g. `{id: "x"}`, answers 201 with the record unchanged and leaves the store as it was |
| AppProperties.PatchIdempotent | app.js:92-110 | applying the same patch twice leaves the store as applying it once |

## Left out

- Express plumbing is not modelled: routing, `express.json()` body parsing, `x-powered-by`, the root HTML route and `app.listen`. Each handler's request is a `Request` value, and its response is a `Reply`.
- The CORS middleware and the OPTIONS preflight handler are not modelled. They are framework-boundary policy, and the origin list plays no part in the store or the validation.
- `crypto.randomUUID()` is not modelled. The id arrives as `newId`, and uniqueness is preserved when it is fresh. The handler does not check freshness, so `CreateMovie` has no freshness precondition.
- The seed store loaded from `movies.json` is not modelled; the file is not part of this model. Every result holds for any store. Validity and uniqueness appear as hypotheses where a property needs them. Seed records with keys outside the schema have no counterpart, because `Movie` holds only the schema fields.
- zod's URL syntax check is not modelled; it is the parameter `isUrl`.
- `MoviesApp.Lower`: only ASCII `A`-`Z` are lower-cased, in place of the locale-aware `toLocaleLowerCase`.
- `MoviesSchema.ValidateMovie`: zod's messages and the JSON serialisation of the error are not kept. The error records the violated fields only, one entry per field, while zod may emit several issues for one field.
- `MoviesSchema.ValidatePartialMovie`: its error is modelled with the same simplification as `MoviesSchema.ValidateMovie`.
- `MoviesSchema.ParseRate`: numbers are exact reals, not IEEE doubles. NaN, the infinities and rounding are not modelled.
- `MoviesSchema.ParseDirector`: the 50-character limit counts Dafny characters, while JavaScript counts UTF-16 code units. The two differ for characters outside the Basic Multilingual Plane.
- A query string given several times is not modelled. Express would pass it as an array. The filter would then throw, giving a 500, once it reaches a record listing at least one genre; on a store with no such record the reply is 404 "Not Found". The model takes the query as an optional string.
- A body that is not JSON at all, which `express.json()` rejects before any handler runs, is not modelled.
