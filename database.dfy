/**
 * The stored row of each table (the ORM models of the database module), without
 * the `id` column, which is the key of the table holding the row (see Store).
 * Foreign keys are plain ids; nothing here checks that they resolve.
 */
module Database {
  import opened Outcomes

  /** `plant_types` */
  datatype PlantTypeRow = PlantTypeRow(name: string)

  /**
   * `plants`. `idealTemperature` is the DECIMAL(5,2) column held as a whole number
   * of hundredths of a degree; `description` is the one nullable column.
   */
  datatype PlantRow = PlantRow(
    scientificName: string,
    commonName: string,
    plantType: int,
    wateringNeeds: string,
    idealTemperature: int,
    description: Option<string>)

  /** `genres` */
  datatype GenreRow = GenreRow(name: string)

  /** `people` */
  datatype PersonRow = PersonRow(name: string, age: int, role: string)

  /** `movies`; `director` refers to `people`, `genre` to `genres`. */
  datatype MovieRow = MovieRow(
    title: string,
    director: int,
    releaseYear: int,
    duration: int,
    genre: int,
    countryOfOrigin: string)

  /** `movie_person`: one movie reference, one person reference, no uniqueness on the pair. */
  datatype Link = Link(movieId: int, personId: int)

  /** A value fits a CHAR column of the given `max_length`. */
  predicate FitsChar(s: string, maxLength: nat) {
    |s| <= maxLength
  }

  /** A value in hundredths fits DECIMAL with `max_digits=5, decimal_places=2`: at most 999.99 in size. */
  predicate FitsDecimal5x2(hundredths: int) {
    -99999 <= hundredths <= 99999
  }

  /** A value fits a MySQL INT column (`IntegerField`, and the AUTO_INCREMENT ids): a signed 32-bit integer. */
  predicate FitsInt(v: int) {
    -0x8000_0000 <= v < 0x8000_0000
  }

  predicate PlantFits(r: PlantRow) {
    FitsChar(r.scientificName, 50) && FitsChar(r.commonName, 50)
    && FitsChar(r.wateringNeeds, 50) && FitsDecimal5x2(r.idealTemperature)
  }

  predicate PersonFits(r: PersonRow) {
    FitsChar(r.name, 100) && FitsInt(r.age) && FitsChar(r.role, 50)
  }

  predicate MovieFits(r: MovieRow) {
    FitsChar(r.title, 100) && FitsInt(r.releaseYear) && FitsInt(r.duration)
    && FitsChar(r.countryOfOrigin, 50)
  }

  /** The foreign keys of a plant resolve against the ids of `plant_types`. */
  predicate PlantRefsResolve(r: PlantRow, plantTypeIds: set<int>) {
    r.plantType in plantTypeIds
  }

  /** The foreign keys of a movie resolve against the ids of `people` and `genres`. */
  predicate MovieRefsResolve(r: MovieRow, personIds: set<int>, genreIds: set<int>) {
    r.director in personIds && r.genre in genreIds
  }
}
