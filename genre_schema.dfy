/** The genre body: an id and a name, with no validator. */
module GenreSchema {
  datatype Genre = Genre(id: int, name: string)
}
