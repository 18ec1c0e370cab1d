/** The plant-type body: an id and a name, with no validator. */
module PlantTypeSchema {
  datatype PlantType = PlantType(id: int, name: string)
}
