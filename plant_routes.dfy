/** The plant and plant-type routes over the two botanical tables. */
module PlantRoutes {
  import opened Outcomes
  import opened Store
  import opened Database
  import PlantSchema
  import PlantTypeSchema

  /** The columns `create_plant` and `update_plant` copy from a body; its `id` is not among them. */
  function StoredFields(b: PlantSchema.Plant): PlantRow
  {
    PlantRow(b.scientificName, b.commonName, b.plantType, b.wateringNeeds, b.idealTemperature, b.description)
  }

  /** A stored plant as a response body. */
  function AsBody(id: int, row: PlantRow): PlantSchema.Plant
  {
    PlantSchema.Plant(id, row.scientificName, row.commonName, row.plantType,
                      row.wateringNeeds, row.idealTemperature, row.description)
  }

  /** Storing a body and reading it back gives the body again, with the id the table chose. */
  lemma StoredFieldsRoundTrip(b: PlantSchema.Plant, id: int)
    ensures AsBody(id, StoredFields(b)) == b.(id := id)
    ensures StoredFields(AsBody(id, StoredFields(b))) == StoredFields(b)
  {
  }

  /**
   * `gt=0` is the schema's only bound on the temperature, so it accepts values the
   * DECIMAL(5,2) column cannot hold (1000.00 and up); every value it accepts is positive.
   */
  lemma SchemaAdmitsOversizeTemperature(b: PlantSchema.Plant)
    ensures PlantSchema.Validate(b).Accepted? && 99999 < b.idealTemperature ==> !PlantFits(StoredFields(b))
    ensures PlantSchema.Validate(b).Accepted? <==> 0 < StoredFields(b).idealTemperature
  {
  }

  class PlantDb {
    var plantTypes: Table<PlantTypeRow>
    var plants: Table<PlantRow>

    /** Tables well formed; every stored plant passed its schema. */
    ghost predicate Valid()
      reads this
    {
      plantTypes.Valid() && plants.Valid()
      && forall id :: id in plants.rows ==> 0 < plants.rows[id].idealTemperature
    }

    constructor ()
      ensures Valid() && plantTypes.rows == map[] && plants.rows == map[]
      ensures plantTypes.nextId == 1 && plants.nextId == 1
    {
      plantTypes, plants := EmptyTable(), EmptyTable();
    }

    // ----- plants

    /** `create_plant` */
    method CreatePlant(body: PlantSchema.Plant) returns (s: Status)
      requires Valid()
      modifies this
      ensures Valid() && s != NotFound
      ensures s == Invalid <==> PlantSchema.Validate(body).Rejected?
      ensures plantTypes == old(plantTypes)
      ensures s == Invalid ==> plants == old(plants)
      ensures s == Done ==>
        && old(plants.nextId) !in old(plants.rows)
        && plants.rows == old(plants.rows)[old(plants.nextId) := StoredFields(body)]
        && plants.nextId == old(plants.nextId) + 1
    {
      var checked := PlantSchema.Validate(body);
      if checked.Rejected? {
        return Invalid;
      }
      var plant := checked.value;
      var created := plants.Insert(StoredFields(plant));
      plants := created.0;
      return Done;
    }

    /** `read_all_plants`: every stored plant, keyed by id. */
    method ReadAllPlants() returns (all: map<int, PlantSchema.Plant>)
      requires Valid()
      ensures all.Keys == plants.rows.Keys
      ensures forall id :: id in all ==>
                all[id] == AsBody(id, plants.rows[id]) && PlantSchema.Validate(all[id]).Accepted?
    {
      all := map id | id in plants.rows :: AsBody(id, plants.rows[id]);
    }

    /** `read_plant` */
    method ReadPlant(plantId: int) returns (r: Reply<PlantSchema.Plant>)
      requires Valid()
      ensures r != ServerError
      ensures r.Ok? <==> plantId in plants.rows
      ensures r.Ok? ==> r.value == AsBody(plantId, plants.rows[plantId])
                        && PlantSchema.Validate(r.value).Accepted?
    {
      var found := plants.Get(plantId);
      if found.None? {
        return Missing;
      }
      r := Ok(AsBody(plantId, found.value));
    }

    /** `update_plant` */
    method UpdatePlant(plantId: int, body: PlantSchema.Plant) returns (s: Status)
      requires Valid()
      modifies this
      ensures Valid()
      ensures s == Invalid <==> PlantSchema.Validate(body).Rejected?
      ensures s == NotFound <==> PlantSchema.Validate(body).Accepted? && plantId !in old(plants.rows)
      ensures plantTypes == old(plantTypes)
      ensures s != Done ==> plants == old(plants)
      ensures s == Done ==> plants.rows == old(plants.rows)[plantId := StoredFields(body)]
                            && plants.rows.Keys == old(plants.rows.Keys)
      ensures plants.nextId == old(plants.nextId)
    {
      var checked := PlantSchema.Validate(body);
      if checked.Rejected? {
        return Invalid;
      }
      var plant := checked.value;
      var found := plants.Get(plantId);
      if found.None? {
        return NotFound;
      }
      var existingPlant := found.value;
      existingPlant := existingPlant.(scientificName := plant.scientificName);
      existingPlant := existingPlant.(commonName := plant.commonName);
      existingPlant := existingPlant.(plantType := plant.plantType);
      existingPlant := existingPlant.(wateringNeeds := plant.wateringNeeds);
      existingPlant := existingPlant.(idealTemperature := plant.idealTemperature);
      existingPlant := existingPlant.(description := plant.description);
      plants := plants.Save(plantId, existingPlant);
      return Done;
    }

    /** `delete_plant` */
    method DeletePlant(plantId: int) returns (s: Status)
      requires Valid()
      modifies this
      ensures Valid() && s != Invalid
      ensures s == NotFound <==> plantId !in old(plants.rows)
      ensures plants.rows == old(plants.rows) - {plantId} && plants.nextId == old(plants.nextId)
      ensures plantTypes == old(plantTypes)
    {
      var deleted := plants.DeleteWhere(plantId);
      plants := deleted.0;
      if deleted.1 > 0 {
        return Done;
      }
      return NotFound;
    }

    // ----- plant types

    /** `create_plant_type` */
    method CreatePlantType(body: PlantTypeSchema.PlantType) returns (s: Status)
      requires Valid()
      modifies this
      ensures Valid() && s == Done
      ensures old(plantTypes.nextId) !in old(plantTypes.rows)
      ensures plantTypes.rows == old(plantTypes.rows)[old(plantTypes.nextId) := PlantTypeRow(body.name)]
      ensures plantTypes.nextId == old(plantTypes.nextId) + 1
      ensures plants == old(plants)
    {
      var created := plantTypes.Insert(PlantTypeRow(body.name));
      plantTypes := created.0;
      return Done;
    }

    /** `read_all_plant_types`: every stored plant type, keyed by id. */
    method ReadAllPlantTypes() returns (all: map<int, PlantTypeSchema.PlantType>)
      requires Valid()
      ensures all.Keys == plantTypes.rows.Keys
      ensures forall id :: id in all ==> all[id] == PlantTypeSchema.PlantType(id, plantTypes.rows[id].name)
    {
      all := map id | id in plantTypes.rows :: PlantTypeSchema.PlantType(id, plantTypes.rows[id].name);
    }

    /** `read_plant_type` */
    method ReadPlantType(plantTypeId: int) returns (r: Reply<PlantTypeSchema.PlantType>)
      requires Valid()
      ensures r != ServerError
      ensures r.Ok? <==> plantTypeId in plantTypes.rows
      ensures r.Ok? ==> r.value == PlantTypeSchema.PlantType(plantTypeId, plantTypes.rows[plantTypeId].name)
    {
      var found := plantTypes.Get(plantTypeId);
      if found.None? {
        return Missing;
      }
      r := Ok(PlantTypeSchema.PlantType(plantTypeId, found.value.name));
    }

    /** `update_plant_type` */
    method UpdatePlantType(plantTypeId: int, body: PlantTypeSchema.PlantType) returns (s: Status)
      requires Valid()
      modifies this
      ensures Valid() && s != Invalid
      ensures s == NotFound <==> plantTypeId !in old(plantTypes.rows)
      ensures s == NotFound ==> plantTypes == old(plantTypes)
      ensures s == Done ==> plantTypes.rows == old(plantTypes.rows)[plantTypeId := PlantTypeRow(body.name)]
                            && plantTypes.rows.Keys == old(plantTypes.rows.Keys)
      ensures plantTypes.nextId == old(plantTypes.nextId)
      ensures plants == old(plants)
    {
      var found := plantTypes.Get(plantTypeId);
      if found.None? {
        return NotFound;
      }
      var existingPlantType := found.value.(name := body.name);
      plantTypes := plantTypes.Save(plantTypeId, existingPlantType);
      return Done;
    }

    /** `delete_plant_type`: plants that name the type keep the id. */
    method DeletePlantType(plantTypeId: int) returns (s: Status)
      requires Valid()
      modifies this
      ensures Valid() && s != Invalid
      ensures s == NotFound <==> plantTypeId !in old(plantTypes.rows)
      ensures plantTypes.rows == old(plantTypes.rows) - {plantTypeId}
      ensures plantTypes.nextId == old(plantTypes.nextId)
      ensures plants == old(plants)
      ensures forall id :: id in plants.rows && plants.rows[id].plantType == plantTypeId ==>
                !PlantRefsResolve(plants.rows[id], plantTypes.rows.Keys)
    {
      var deleted := plantTypes.DeleteWhere(plantTypeId);
      plantTypes := deleted.0;
      if deleted.1 > 0 {
        return Done;
      }
      return NotFound;
    }
  }
}
