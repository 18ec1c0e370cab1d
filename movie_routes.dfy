/**
 * The movie, genre and person routes over the film tables. The `movie_person`
 * link table is kept as the sequence of its rows in insertion order; a movie's
 * cast is read back by selecting the person ids of its rows in that order.
 */
module MovieRoutes {
  import opened Outcomes
  import opened Store
  import opened Database
  import MovieSchema
  import PersonSchema
  import GenreSchema

  // ---------------------------------------------------------------------------
  // The link table

  /** `select(person_id).where(movie_id == m)`: the person ids linked to movie `m`, in row order. */
  function CastOf(links: seq<Link>, m: int): seq<int>
  {
    if links == [] then []
    else (if links[0].movieId == m then [links[0].personId] else []) + CastOf(links[1..], m)
  }

  /** The rows one `create` per element of `cast` appends for movie `m`. */
  function LinksFor(m: int, cast: seq<int>): seq<Link>
  {
    seq(|cast|, i requires 0 <= i < |cast| => Link(m, cast[i]))
  }

  /** `delete().where(movie_id == m)`: the link table without the rows of movie `m`. */
  function WithoutMovie(links: seq<Link>, m: int): (r: seq<Link>)
    ensures forall i :: 0 <= i < |r| ==> r[i].movieId != m && r[i] in links
  {
    if links == [] then []
    else (if links[0].movieId == m then [] else [links[0]]) + WithoutMovie(links[1..], m)
  }

  lemma {:induction false} CastOfAppend(a: seq<Link>, b: seq<Link>, m: int)
    ensures CastOf(a + b, m) == CastOf(a, m) + CastOf(b, m)
  {
    if a != [] {
      assert (a + b)[1..] == a[1..] + b;
      CastOfAppend(a[1..], b, m);
    } else {
      assert a + b == b;
    }
  }

  /** The rows inserted for a cast list give back exactly that list, duplicates and order included, and nothing for another movie. */
  lemma {:induction false} CastOfLinksFor(m: int, cast: seq<int>, x: int)
    ensures CastOf(LinksFor(m, cast), x) == if x == m then cast else []
  {
    if cast != [] {
      assert LinksFor(m, cast)[1..] == LinksFor(m, cast[1..]);
      CastOfLinksFor(m, cast[1..], x);
    }
  }

  /** Deleting a movie's link rows empties its cast and leaves every other cast as it was. */
  lemma {:induction false} CastOfWithoutMovie(links: seq<Link>, m: int, x: int)
    ensures CastOf(WithoutMovie(links, m), x) == if x == m then [] else CastOf(links, x)
  {
    if links != [] {
      var head := if links[0].movieId == m then [] else [links[0]];
      CastOfAppend(head, WithoutMovie(links[1..], m), x);
      CastOfWithoutMovie(links[1..], m, x);
    }
  }

  /** A movie no link row mentions has an empty cast. */
  lemma {:induction false} CastOfUnlinked(links: seq<Link>, m: int)
    requires forall i :: 0 <= i < |links| ==> links[i].movieId != m
    ensures CastOf(links, m) == []
  {
    if links != [] {
      CastOfUnlinked(links[1..], m);
    }
  }

  /**
   * The cast replacement of `update_movie`: delete movie `m`'s rows, then append one
   * row per element of the new list. Afterwards `m`'s cast is the new list and every
   * other movie's cast is untouched.
   */
  lemma ReplaceCast(links: seq<Link>, m: int, cast: seq<int>, x: int)
    ensures CastOf(WithoutMovie(links, m) + LinksFor(m, cast), x)
            == if x == m then cast else CastOf(links, x)
  {
    CastOfAppend(WithoutMovie(links, m), LinksFor(m, cast), x);
    CastOfWithoutMovie(links, m, x);
    CastOfLinksFor(m, cast, x);
  }

  /** Duplicate person ids are not collapsed: `[3, 7, 7, 9]` is read back as `[3, 7, 7, 9]`. */
  lemma DuplicatesKept(m: int)
    ensures CastOf(LinksFor(m, [3, 7, 7, 9]), m) == [3, 7, 7, 9]
  {
    CastOfLinksFor(m, [3, 7, 7, 9], m);
  }

  /** The columns `create_movie` and `update_movie` copy from a body; its `id` and `cast` are not among them. */
  function StoredFields(b: MovieSchema.Movie): MovieRow
  {
    MovieRow(b.title, b.director, b.releaseYear, b.duration, b.genre, b.countryOfOrigin)
  }

  /** The body of a response: the stored columns of movie `id` and the cast read from the link table. */
  function Materialize(id: int, row: MovieRow, links: seq<Link>): MovieSchema.Movie
  {
    MovieSchema.Movie(id, row.title, row.director, row.releaseYear, row.duration,
                      row.genre, row.countryOfOrigin, CastOf(links, id))
  }

  /** Two bodies store the same row exactly when they differ at most in `id` and `cast`. */
  lemma BodyIdIgnored(a: MovieSchema.Movie, b: MovieSchema.Movie)
    ensures StoredFields(a) == StoredFields(b) <==> a.(id := 0, cast := []) == b.(id := 0, cast := [])
  {
  }

  /**
   * The schema bounds no text field, so a body it accepts can carry a title wider
   * than the `title` column: the insert is then left to the database to refuse.
   */
  lemma SchemaAdmitsOverlongTitle(b: MovieSchema.Movie)
    requires 100 < |b.title| && 0 < b.duration && MovieSchema.FirstFilmYear <= b.releaseYear
    ensures MovieSchema.Validate(b).Accepted? && !MovieFits(StoredFields(b))
  {
  }

  /**
   * `release_year` is a 32-bit INT column and the schema only bounds it from below,
   * so a body it accepts can carry a year the column cannot store.
   */
  lemma SchemaAdmitsOversizeYear(b: MovieSchema.Movie)
    requires 0x8000_0000 <= b.releaseYear && 0 < b.duration
    ensures MovieSchema.Validate(b).Accepted? && !MovieFits(StoredFields(b))
  {
  }

  /**
   * Of a person body the schema accepts, only the text can be too wide for its
   * columns: the age bound keeps every accepted age inside the INT column.
   */
  lemma AcceptedPersonColumns(p: PersonSchema.Person)
    ensures PersonSchema.Validate(p).Accepted? ==>
              (PersonFits(PersonRow(p.name, p.age, p.role)) <==> FitsChar(p.name, 100) && FitsChar(p.role, 50))
  {
  }

  /**
   * The person schema bounds no name, so a body with a valid age and a name over
   * 100 characters is accepted, and its row does not fit the `name` column.
   */
  lemma SchemaAdmitsOverlongName(p: PersonSchema.Person)
    requires 100 < |p.name| && 0 < p.age <= 100
    ensures PersonSchema.Validate(p).Accepted? && !PersonFits(PersonRow(p.name, p.age, p.role))
  {
  }

  // ---------------------------------------------------------------------------
  // The film tables and their routes

  class FilmDb {
    var movies: Table<MovieRow>
    var genres: Table<GenreRow>
    var people: Table<PersonRow>
    var links: seq<Link>

    /**
     * Tables well formed; every link row names a movie id already handed out
     * (so a fresh movie starts with no links); every stored movie and person
     * passed its schema.
     */
    ghost predicate Valid()
      reads this
    {
      movies.Valid() && genres.Valid() && people.Valid()
      && (forall i :: 0 <= i < |links| ==> links[i].movieId < movies.nextId)
      && (forall id :: id in movies.rows ==>
            0 < movies.rows[id].duration && MovieSchema.FirstFilmYear <= movies.rows[id].releaseYear)
      && (forall id :: id in people.rows ==> 0 < people.rows[id].age <= 100)
    }

    constructor ()
      ensures Valid()
      ensures movies.rows == map[] && genres.rows == map[] && people.rows == map[] && links == []
      ensures movies.nextId == 1 && genres.nextId == 1 && people.nextId == 1
    {
      movies, genres, people, links := EmptyTable(), EmptyTable(), EmptyTable(), [];
    }

    /** The director and genre of a stored movie can be loaded (`movie.director.id`, `movie.genre.id`). */
    predicate Resolves(row: MovieRow)
      reads this
    {
      MovieRefsResolve(row, people.rows.Keys, genres.rows.Keys)
    }

    // ----- movies

    /** `create_movie` */
    method CreateMovie(body: MovieSchema.Movie) returns (s: Status)
      requires Valid()
      modifies this
      ensures Valid()
      ensures s != NotFound
      ensures s == Invalid <==> MovieSchema.Validate(body).Rejected?
      ensures genres == old(genres) && people == old(people)
      ensures s == Invalid ==> movies == old(movies) && links == old(links)
      ensures s == Done ==>
        var id := old(movies.nextId);
        && id !in old(movies.rows)
        && movies.rows == old(movies.rows)[id := StoredFields(body)] && movies.nextId == id + 1
        && links == old(links) + LinksFor(id, body.cast)
        && CastOf(links, id) == body.cast
        && (forall m :: m != id ==> CastOf(links, m) == CastOf(old(links), m))
    {
      var checked := MovieSchema.Validate(body);
      if checked.Rejected? {
        return Invalid;
      }
      var movie := checked.value;
      var created := movies.Insert(StoredFields(movie));
      var newId := created.1;
      movies := created.0;
      for i := 0 to |movie.cast|
        invariant movies == created.0 && genres == old(genres) && people == old(people)
        invariant links == old(links) + LinksFor(newId, movie.cast[..i])
      {
        assert LinksFor(newId, movie.cast[..i + 1]) == LinksFor(newId, movie.cast[..i]) + [Link(newId, movie.cast[i])];
        links := links + [Link(newId, movie.cast[i])];
      }
      assert movie.cast[..|movie.cast|] == movie.cast;
      CastOfUnlinked(old(links), newId);
      forall m
        ensures CastOf(links, m) == CastOf(old(links), m) + (if m == newId then movie.cast else [])
      {
        CastOfAppend(old(links), LinksFor(newId, movie.cast), m);
        CastOfLinksFor(newId, movie.cast, m);
      }
      return Done;
    }

    /**
     * `read_movies`: one entry per stored movie, in ascending id order (the order of the
     * table's clustered primary key), or a 500 when a director or genre cannot be loaded.
     */
    method ReadMovies() returns (r: Reply<seq<MovieSchema.Movie>>)
      requires Valid()
      ensures r != Missing
      ensures r == ServerError <==> exists id :: id in movies.rows && !Resolves(movies.rows[id])
      ensures r.Ok? ==> forall i :: 0 <= i < |r.value| ==>
                r.value[i].id in movies.rows
                && r.value[i] == Materialize(r.value[i].id, movies.rows[r.value[i].id], links)
                && MovieSchema.Validate(r.value[i]).Accepted?
      ensures r.Ok? ==> forall id :: id in movies.rows ==>
                exists i :: 0 <= i < |r.value| && r.value[i].id == id
      ensures r.Ok? ==> forall i, j :: 0 <= i < j < |r.value| ==> r.value[i].id < r.value[j].id
    {
      var out: seq<MovieSchema.Movie> := [];
      for id := 1 to movies.nextId
        invariant forall i :: 0 <= i < |out| ==>
                    out[i].id in movies.rows && out[i].id < id
                    && out[i] == Materialize(out[i].id, movies.rows[out[i].id], links)
        invariant forall k :: k in movies.rows && k < id ==>
                    Resolves(movies.rows[k]) && exists i :: 0 <= i < |out| && out[i].id == k
        invariant forall i, j :: 0 <= i < j < |out| ==> out[i].id < out[j].id
      {
        if id in movies.rows {
          var movie := movies.rows[id];
          var castIds := CastOf(links, id);
          if movie.director !in people.rows || movie.genre !in genres.rows {
            return ServerError;
          }
          var entry := MovieSchema.Movie(id, movie.title, movie.director, movie.releaseYear, movie.duration,
                                         movie.genre, movie.countryOfOrigin, castIds);
          ghost var before := out;
          out := out + [entry];
          forall k | k in movies.rows && k < id + 1
            ensures exists i :: 0 <= i < |out| && out[i].id == k
          {
            if k == id {
              assert out[|before|].id == k;
            } else {
              var i :| 0 <= i < |before| && before[i].id == k;
              assert out[i].id == k;
            }
          }
        }
      }
      r := Ok(out);
    }

    /** `read_movie`: the stored movie with its cast, or a 404 when the id is absent or its director or genre cannot be loaded. */
    method ReadMovie(movieId: int) returns (r: Reply<MovieSchema.Movie>)
      requires Valid()
      ensures r != ServerError
      ensures r.Ok? <==> movieId in movies.rows && Resolves(movies.rows[movieId])
      ensures r.Ok? ==> r.value == Materialize(movieId, movies.rows[movieId], links)
      ensures r.Ok? ==> r.value.id == movieId && r.value.cast == CastOf(links, movieId)
                        && MovieSchema.Validate(r.value).Accepted?
    {
      var found := movies.Get(movieId);
      if found.None? {
        return Missing;
      }
      var movie := found.value;
      var castIds := CastOf(links, movieId);
      var director := people.Get(movie.director);
      var genre := genres.Get(movie.genre);
      if director.None? || genre.None? {
        return Missing;
      }
      r := Ok(MovieSchema.Movie(movieId, movie.title, movie.director, movie.releaseYear, movie.duration,
                                movie.genre, movie.countryOfOrigin, castIds));
    }

    /** `update_movie` */
    method UpdateMovie(movieId: int, body: MovieSchema.Movie) returns (s: Status)
      requires Valid()
      modifies this
      ensures Valid()
      ensures s == Invalid <==> MovieSchema.Validate(body).Rejected?
      ensures s == NotFound <==> MovieSchema.Validate(body).Accepted? && movieId !in old(movies.rows)
      ensures genres == old(genres) && people == old(people)
      ensures s != Done ==> movies == old(movies) && links == old(links)
      ensures s == Done ==>
        && movies.rows == old(movies.rows)[movieId := StoredFields(body)]
        && movies.rows.Keys == old(movies.rows.Keys)
        && movies.nextId == old(movies.nextId)
        && links == WithoutMovie(old(links), movieId) + LinksFor(movieId, body.cast)
        && CastOf(links, movieId) == body.cast
        && (forall m :: m != movieId ==> CastOf(links, m) == CastOf(old(links), m))
    {
      var checked := MovieSchema.Validate(body);
      if checked.Rejected? {
        return Invalid;
      }
      var movie := checked.value;
      var found := movies.Get(movieId);
      if found.None? {
        return NotFound;
      }
      var movieToUpdate := found.value;
      movieToUpdate := movieToUpdate.(title := movie.title);
      movieToUpdate := movieToUpdate.(director := movie.director);
      movieToUpdate := movieToUpdate.(releaseYear := movie.releaseYear);
      movieToUpdate := movieToUpdate.(duration := movie.duration);
      movieToUpdate := movieToUpdate.(genre := movie.genre);
      movieToUpdate := movieToUpdate.(countryOfOrigin := movie.countryOfOrigin);
      links := WithoutMovie(links, movieId);
      ghost var cleared := links;
      for i := 0 to |movie.cast|
        invariant movies == old(movies) && genres == old(genres) && people == old(people)
        invariant links == cleared + LinksFor(movieId, movie.cast[..i])
      {
        assert LinksFor(movieId, movie.cast[..i + 1]) == LinksFor(movieId, movie.cast[..i]) + [Link(movieId, movie.cast[i])];
        links := links + [Link(movieId, movie.cast[i])];
      }
      assert movie.cast[..|movie.cast|] == movie.cast;
      movies := movies.Save(movieId, movieToUpdate);
      forall m
        ensures CastOf(links, m) == if m == movieId then movie.cast else CastOf(old(links), m)
      {
        ReplaceCast(old(links), movieId, movie.cast, m);
      }
      return Done;
    }

    /** `delete_movie`: removes the movie row only; its link rows stay. */
    method DeleteMovie(movieId: int) returns (s: Status)
      requires Valid()
      modifies this
      ensures Valid()
      ensures s != Invalid
      ensures s == NotFound <==> movieId !in old(movies.rows)
      ensures movies.rows == old(movies.rows) - {movieId} && movies.nextId == old(movies.nextId)
      ensures links == old(links) && genres == old(genres) && people == old(people)
    {
      var deleted := movies.DeleteWhere(movieId);
      movies := deleted.0;
      if deleted.1 > 0 {
        return Done;
      }
      return NotFound;
    }

    // ----- genres

    /** `create_genre` */
    method CreateGenre(body: GenreSchema.Genre) returns (s: Status)
      requires Valid()
      modifies this
      ensures Valid() && s == Done
      ensures old(genres.nextId) !in old(genres.rows)
      ensures genres.rows == old(genres.rows)[old(genres.nextId) := GenreRow(body.name)]
      ensures genres.nextId == old(genres.nextId) + 1
      ensures movies == old(movies) && people == old(people) && links == old(links)
    {
      var created := genres.Insert(GenreRow(body.name));
      genres := created.0;
      return Done;
    }

    /** `read_genres`: every stored genre, keyed by id. */
    method ReadGenres() returns (all: map<int, GenreSchema.Genre>)
      requires Valid()
      ensures all.Keys == genres.rows.Keys
      ensures forall id :: id in all ==> all[id] == GenreSchema.Genre(id, genres.rows[id].name)
    {
      all := map id | id in genres.rows :: GenreSchema.Genre(id, genres.rows[id].name);
    }

    /** `read_genre` */
    method ReadGenre(genreId: int) returns (r: Reply<GenreSchema.Genre>)
      requires Valid()
      ensures r != ServerError
      ensures r.Ok? <==> genreId in genres.rows
      ensures r.Ok? ==> r.value == GenreSchema.Genre(genreId, genres.rows[genreId].name)
    {
      var found := genres.Get(genreId);
      if found.None? {
        return Missing;
      }
      r := Ok(GenreSchema.Genre(genreId, found.value.name));
    }

    /** `update_genre` */
    method UpdateGenre(genreId: int, body: GenreSchema.Genre) returns (s: Status)
      requires Valid()
      modifies this
      ensures Valid() && s != Invalid
      ensures s == NotFound <==> genreId !in old(genres.rows)
      ensures s == NotFound ==> genres == old(genres)
      ensures s == Done ==> genres.rows == old(genres.rows)[genreId := GenreRow(body.name)]
                            && genres.rows.Keys == old(genres.rows.Keys)
      ensures genres.nextId == old(genres.nextId)
      ensures movies == old(movies) && people == old(people) && links == old(links)
    {
      var found := genres.Get(genreId);
      if found.None? {
        return NotFound;
      }
      var genreToUpdate := found.value.(name := body.name);
      genres := genres.Save(genreId, genreToUpdate);
      return Done;
    }

    /** `delete_genre`: movies that name the genre keep the id. */
    method DeleteGenre(genreId: int) returns (s: Status)
      requires Valid()
      modifies this
      ensures Valid() && s != Invalid
      ensures s == NotFound <==> genreId !in old(genres.rows)
      ensures genres.rows == old(genres.rows) - {genreId} && genres.nextId == old(genres.nextId)
      ensures movies == old(movies) && people == old(people) && links == old(links)
      ensures forall id :: id in movies.rows && movies.rows[id].genre == genreId ==> !Resolves(movies.rows[id])
    {
      var deleted := genres.DeleteWhere(genreId);
      genres := deleted.0;
      if deleted.1 > 0 {
        return Done;
      }
      return NotFound;
    }

    // ----- people

    /** `create_person` */
    method CreatePerson(body: PersonSchema.Person) returns (s: Status)
      requires Valid()
      modifies this
      ensures Valid() && s != NotFound
      ensures s == Invalid <==> PersonSchema.Validate(body).Rejected?
      ensures s == Invalid ==> people == old(people)
      ensures s == Done ==>
        && old(people.nextId) !in old(people.rows)
        && people.rows == old(people.rows)[old(people.nextId) := PersonRow(body.name, body.age, body.role)]
        && people.nextId == old(people.nextId) + 1
      ensures movies == old(movies) && genres == old(genres) && links == old(links)
    {
      var checked := PersonSchema.Validate(body);
      if checked.Rejected? {
        return Invalid;
      }
      var person := checked.value;
      var created := people.Insert(PersonRow(person.name, person.age, person.role));
      people := created.0;
      return Done;
    }

    /** `read_people`: every stored person, keyed by id. */
    method ReadPeople() returns (all: map<int, PersonSchema.Person>)
      requires Valid()
      ensures all.Keys == people.rows.Keys
      ensures forall id :: id in all ==>
                all[id] == PersonSchema.Person(id, people.rows[id].name, people.rows[id].age, people.rows[id].role)
                && PersonSchema.Validate(all[id]).Accepted?
    {
      all := map id | id in people.rows ::
               PersonSchema.Person(id, people.rows[id].name, people.rows[id].age, people.rows[id].role);
    }

    /** `read_person` */
    method ReadPerson(personId: int) returns (r: Reply<PersonSchema.Person>)
      requires Valid()
      ensures r != ServerError
      ensures r.Ok? <==> personId in people.rows
      ensures r.Ok? ==> var row := people.rows[personId];
                        r.value == PersonSchema.Person(personId, row.name, row.age, row.role)
                        && PersonSchema.Validate(r.value).Accepted?
    {
      var found := people.Get(personId);
      if found.None? {
        return Missing;
      }
      var person := found.value;
      r := Ok(PersonSchema.Person(personId, person.name, person.age, person.role));
    }

    /** `update_person` */
    method UpdatePerson(personId: int, body: PersonSchema.Person) returns (s: Status)
      requires Valid()
      modifies this
      ensures Valid()
      ensures s == Invalid <==> PersonSchema.Validate(body).Rejected?
      ensures s == NotFound <==> PersonSchema.Validate(body).Accepted? && personId !in old(people.rows)
      ensures s != Done ==> people == old(people)
      ensures s == Done ==> people.rows == old(people.rows)[personId := PersonRow(body.name, body.age, body.role)]
                            && people.rows.Keys == old(people.rows.Keys)
      ensures people.nextId == old(people.nextId)
      ensures movies == old(movies) && genres == old(genres) && links == old(links)
    {
      var checked := PersonSchema.Validate(body);
      if checked.Rejected? {
        return Invalid;
      }
      var person := checked.value;
      var found := people.Get(personId);
      if found.None? {
        return NotFound;
      }
      var personToUpdate := found.value;
      personToUpdate := personToUpdate.(name := person.name);
      personToUpdate := personToUpdate.(age := person.age);
      personToUpdate := personToUpdate.(role := person.role);
      people := people.Save(personId, personToUpdate);
      return Done;
    }

    /** `delete_person`: movies and link rows that name the person keep the id. */
    method DeletePerson(personId: int) returns (s: Status)
      requires Valid()
      modifies this
      ensures Valid() && s != Invalid
      ensures s == NotFound <==> personId !in old(people.rows)
      ensures people.rows == old(people.rows) - {personId} && people.nextId == old(people.nextId)
      ensures movies == old(movies) && genres == old(genres) && links == old(links)
      ensures forall id :: id in movies.rows && movies.rows[id].director == personId ==> !Resolves(movies.rows[id])
    {
      var deleted := people.DeleteWhere(personId);
      people := deleted.0;
      if deleted.1 > 0 {
        return Done;
      }
      return NotFound;
    }
  }
}
