/** The request body of the plant routes and its validators. */
module PlantSchema {
  import opened Outcomes

  /**
   * `ideal_temperature` is a number of hundredths of a degree, the precision of
   * the column it is stored in; an absent `description` is `None`.
   */
  datatype Plant = Plant(
    id: int,
    scientificName: string,
    commonName: string,
    plantType: int,
    wateringNeeds: string,
    idealTemperature: int,
    description: Option<string>)

  /** The field bound `ideal_temperature: float = Field(..., gt=0)`. */
  function TemperatureField(v: int): (r: Checked<int>)
    ensures r.Accepted? <==> 0 < v
    ensures r.Accepted? ==> r.value == v
  {
    if v > 0 then Accepted(v) else Rejected
  }

  /** `temperature_must_be_positive`: refuses a value that is not above zero, hands any other back. */
  function TemperatureMustBePositive(v: int): (r: Checked<int>)
    ensures r.Accepted? <==> 0 < v
    ensures r.Accepted? ==> r.value == v
  {
    if v <= 0 then Rejected else Accepted(v)
  }

  /** Validation of a plant body: the field bound first, then the validator. */
  function Validate(p: Plant): (r: Checked<Plant>)
    ensures r.Accepted? <==> 0 < p.idealTemperature
    ensures r.Accepted? ==> r.value == p
  {
    match TemperatureField(p.idealTemperature)
    case Rejected => Rejected
    case Accepted(t) =>
      match TemperatureMustBePositive(t)
      case Rejected => Rejected
      case Accepted(u) => Accepted(p.(idealTemperature := u))
  }

  /** 0 is refused, 0.10 (ten hundredths) passes; the validator repeats the field bound exactly. */
  lemma TemperatureBoundaries(v: int)
    ensures TemperatureField(0) == Rejected && TemperatureField(10) == Accepted(10)
    ensures TemperatureField(v) == TemperatureMustBePositive(v)
  {
  }
}
